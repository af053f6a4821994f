/**
 * The text STL format: what `loadModelSTL_ascii` makes of a file given as its
 * sequence of lines.  Only lines whose first token is `vertex` matter; every
 * three of them make one face, in the order they were read.
 */
module StlText {
  import opened Wrappers
  import opened Geometry

  /** The outcome of `Convert.ToDouble` on one token. */
  datatype Parsed<D> = Number(value: D) | NotANumber | OutOfRange

  /**
   * The floating-point operations the text decoder uses, left uninterpreted:
   * `Convert.ToDouble` (a number, a token that is not one, or one too large for
   * `double`) and the multiplication of a coordinate by 1000.0.
   */
  datatype TextNumerics<!D> = TextNumerics(toDouble: string -> Parsed<D>, times1000: D -> D)

  // ---------------------------------------------------------------------------
  // Tokenizing a line: Regex("\\s+").Replace(line, " "), then Trim(), then Split(' ').

  /** The characters .NET's `\s` matches; `String.Trim` removes the same set. */
  predicate IsSpace(c: char) {
    var k := c as int;
    k == 0x20 || 0x09 <= k <= 0x0D || k == 0x85 || k == 0xA0 || k == 0x1680 ||
    0x2000 <= k <= 0x200A || k == 0x2028 || k == 0x2029 || k == 0x202F || k == 0x205F || k == 0x3000
  }

  /** `s` without its leading whitespace (`TrimStart`). */
  function SkipSpaces(s: string): string {
    if s != [] && IsSpace(s[0]) then SkipSpaces(s[1..]) else s
  }

  /** `s` without its trailing whitespace (`TrimEnd`). */
  function TrimEnd(s: string): string {
    if s != [] && IsSpace(s[|s| - 1]) then TrimEnd(s[..|s| - 1]) else s
  }

  function Trim(s: string): string {
    TrimEnd(SkipSpaces(s))
  }

  /** Every maximal run of whitespace replaced by one blank (kept at the run's last character). */
  function Collapse(s: string): string {
    if s == [] then []
    else if IsSpace(s[0]) && |s| > 1 && IsSpace(s[1]) then Collapse(s[1..])
    else [if IsSpace(s[0]) then ' ' else s[0]] + Collapse(s[1..])
  }

  /** `String.Split(sep)`: the pieces between separators, empty ones included; never no piece. */
  function SplitOn(t: string, sep: char): (r: seq<string>)
    ensures |r| >= 1
  {
    if t == [] then [""]
    else
      var rest := SplitOn(t[1..], sep);
      if t[0] == sep then [""] + rest else [[t[0]] + rest[0]] + rest[1..]
  }

  /** `String.Join(sep, pieces)`. */
  function Join(pieces: seq<string>, sep: char): string {
    if pieces == [] then []
    else if |pieces| == 1 then pieces[0]
    else pieces[0] + [sep] + Join(pieces[1..], sep)
  }

  /** The `parts` of a line. */
  function Tokens(line: string): seq<string> {
    SplitOn(Trim(Collapse(line)), ' ')
  }

  /** The tokens of every line of a file, line by line. */
  function LineParts(lines: seq<string>): (tls: seq<seq<string>>)
    ensures |tls| == |lines|
  {
    if lines == [] then [] else LineParts(lines[..|lines| - 1]) + [Tokens(lines[|lines| - 1])]
  }

  /** Entry `i` of the tokenized file is the tokens of line `i`. */
  lemma {:induction false} LinePartsAt(lines: seq<string>, i: nat)
    requires i < |lines|
    ensures LineParts(lines)[i] == Tokens(lines[i])
  {
    if i < |lines| - 1 {
      LinePartsAt(lines[..|lines| - 1], i);
    }
  }

  /** `parts[0].Trim() == "vertex"` on the tokens of any line is exactly IsVertexLine: the trim changes no token. */
  lemma VertexTestIgnoresTrim(lines: seq<string>, i: nat)
    requires i < |lines|
    ensures |LineParts(lines)[i]| >= 1
    ensures Trim(LineParts(lines)[i][0]) == "vertex" <==> IsVertexLine(LineParts(lines)[i])
  {
    LinePartsAt(lines, i);
    TokensHaveNoSpaces(lines[i]);
    TrimWithoutSpaces(Tokens(lines[i])[0]);
  }

  /**
   * `parts[0].Trim() == "vertex"`.  The `Trim` is left out here: a token holds no
   * whitespace (TokensHaveNoSpaces), so trimming it changes nothing (TrimWithoutSpaces).
   */
  predicate IsVertexLine(parts: seq<string>) {
    |parts| > 0 && parts[0] == "vertex"
  }

  lemma {:induction false} CollapseOnlyBlanks(s: string)
    ensures forall c | c in Collapse(s) :: IsSpace(c) ==> c == ' '
  {
    if s != [] {
      CollapseOnlyBlanks(s[1..]);
    }
  }

  /** `TrimStart` removes exactly the leading whitespace: what is left is a suffix that starts with no whitespace. */
  lemma {:induction false} SkipSpacesIsSuffix(s: string)
    ensures |SkipSpaces(s)| <= |s| && SkipSpaces(s) == s[|s| - |SkipSpaces(s)|..]
    ensures forall j | 0 <= j < |s| - |SkipSpaces(s)| :: IsSpace(s[j])
    ensures SkipSpaces(s) != [] ==> !IsSpace(SkipSpaces(s)[0])
  {
    if s != [] && IsSpace(s[0]) {
      SkipSpacesIsSuffix(s[1..]);
      assert s[1..][|s[1..]| - |SkipSpaces(s[1..])|..] == s[|s| - |SkipSpaces(s)|..];
      forall j | 1 <= j < |s| - |SkipSpaces(s)| ensures IsSpace(s[j]) {
        assert s[j] == s[1..][j - 1];
      }
    }
  }

  /** `TrimEnd` removes exactly the trailing whitespace: what is left is a prefix that ends with no whitespace. */
  lemma {:induction false} TrimEndIsPrefix(s: string)
    ensures |TrimEnd(s)| <= |s| && TrimEnd(s) == s[..|TrimEnd(s)|]
    ensures forall j | |TrimEnd(s)| <= j < |s| :: IsSpace(s[j])
    ensures TrimEnd(s) != [] ==> !IsSpace(TrimEnd(s)[|TrimEnd(s)| - 1])
  {
    if s != [] && IsSpace(s[|s| - 1]) {
      TrimEndIsPrefix(s[..|s| - 1]);
      assert s[..|s| - 1][..|TrimEnd(s)|] == s[..|TrimEnd(s)|];
    }
  }

  /**
   * `Trim` removes exactly the leading and the trailing whitespace: the result is the
   * stretch of `s` from its first to its last non-whitespace character.
   */
  lemma TrimIsSlice(s: string)
    ensures |Trim(s)| <= |SkipSpaces(s)| <= |s|
    ensures var a := |s| - |SkipSpaces(s)|;
      a + |Trim(s)| <= |s| && Trim(s) == s[a..a + |Trim(s)|] &&
      (forall j | 0 <= j < a :: IsSpace(s[j])) &&
      (forall j | a + |Trim(s)| <= j < |s| :: IsSpace(s[j]))
    ensures Trim(s) != [] ==> !IsSpace(Trim(s)[0]) && !IsSpace(Trim(s)[|Trim(s)| - 1])
  {
    var u := SkipSpaces(s);
    SkipSpacesIsSuffix(s);
    TrimEndIsPrefix(u);
    var a := |s| - |u|;
    var t := Trim(s);
    assert t == u[..|t|];
    assert u[..|t|] == s[a..a + |t|];
    forall j | a + |t| <= j < |s| ensures IsSpace(s[j]) {
      assert s[j] == u[j - a];
    }
    if t != [] {
      assert t[0] == u[0];
    }
  }

  lemma {:induction false} SplitPieces(t: string, sep: char)
    ensures forall i, j | 0 <= i < |SplitOn(t, sep)| && 0 <= j < |SplitOn(t, sep)[i]| ::
      SplitOn(t, sep)[i][j] in t && SplitOn(t, sep)[i][j] != sep
  {
    if t != [] {
      SplitPieces(t[1..], sep);
    }
  }

  /** A line always has at least one token, and no token contains whitespace. */
  lemma TokensHaveNoSpaces(line: string)
    ensures |Tokens(line)| >= 1
    ensures forall i, j | 0 <= i < |Tokens(line)| && 0 <= j < |Tokens(line)[i]| :: !IsSpace(Tokens(line)[i][j])
  {
    var c := Collapse(line);
    var t := Trim(c);
    CollapseOnlyBlanks(line);
    TrimIsSlice(c);
    forall ch | ch in t ensures ch in c {
      var j :| 0 <= j < |t| && t[j] == ch;
      assert c[|c| - |SkipSpaces(c)| + j] == ch;
    }
    SplitPieces(t, ' ');
  }

  lemma {:induction false} TrimWithoutSpaces(s: string)
    requires forall j | 0 <= j < |s| :: !IsSpace(s[j])
    ensures Trim(s) == s
  {
    if s != [] {
      assert SkipSpaces(s) == s;
      assert TrimEnd(s) == s;
    }
  }

  /** Splitting and joining again with the same separator gives back the string. */
  lemma {:induction false} SplitJoin(t: string, sep: char)
    ensures Join(SplitOn(t, sep), sep) == t
  {
    if t != [] {
      var rest := SplitOn(t[1..], sep);
      SplitJoin(t[1..], sep);
      if t[0] == sep {
        assert ([""] + rest)[1..] == rest;
        assert Join([""] + rest, sep) == "" + [sep] + Join(rest, sep);
      } else if |rest| == 1 {
        assert Join(rest, sep) == rest[0];
      } else {
        assert Join(rest, sep) == rest[0] + [sep] + Join(rest[1..], sep);
        var first := [t[0]] + rest[0];
        assert ([first] + rest[1..])[1..] == rest[1..];
        assert Join([first] + rest[1..], sep) == first + [sep] + Join(rest[1..], sep);
      }
    }
  }

  /** After the collapse no two whitespace characters are adjacent. */
  lemma {:induction false} CollapseNoDoubleSpace(s: string)
    ensures forall j | 0 <= j < |Collapse(s)| - 1 :: !(IsSpace(Collapse(s)[j]) && IsSpace(Collapse(s)[j + 1]))
  {
    if s != [] {
      CollapseNoDoubleSpace(s[1..]);
      if !(IsSpace(s[0]) && |s| > 1 && IsSpace(s[1])) {
        var c := Collapse(s);
        var r := Collapse(s[1..]);
        assert c == [c[0]] + r;
        if IsSpace(c[0]) && |s| > 1 {
          assert r[0] == s[1];
        }
        forall j | 1 <= j < |c| - 1 ensures !(IsSpace(c[j]) && IsSpace(c[j + 1])) {
          assert c[j] == r[j - 1] && c[j + 1] == r[j];
        }
      }
    }
  }

  /** Every non-whitespace character of the line survives the collapse. */
  lemma {:induction false} CollapseKeepsWords(s: string)
    ensures forall i | 0 <= i < |s| && !IsSpace(s[i]) :: s[i] in Collapse(s)
  {
    if s != [] {
      CollapseKeepsWords(s[1..]);
      forall i | 1 <= i < |s| && !IsSpace(s[i]) ensures s[i] in Collapse(s) {
        assert s[i] == s[1..][i - 1];
      }
    }
  }

  /** A line of whitespace only collapses to blanks only. */
  lemma {:induction false} CollapseAllSpaces(s: string)
    requires forall i | 0 <= i < |s| :: IsSpace(s[i])
    ensures forall j | 0 <= j < |Collapse(s)| :: Collapse(s)[j] == ' '
  {
    if s != [] {
      CollapseAllSpaces(s[1..]);
    }
  }

  /** A non-empty string with no separator at either end and no two separators in a row. */
  predicate Words(t: string, sep: char) {
    t != [] && t[0] != sep && t[|t| - 1] != sep &&
    forall j | 0 <= j < |t| - 1 :: !(t[j] == sep && t[j + 1] == sep)
  }

  /** Such a string splits into non-empty pieces only. */
  lemma {:induction false} SplitWords(t: string, sep: char)
    requires Words(t, sep)
    ensures forall k | 0 <= k < |SplitOn(t, sep)| :: SplitOn(t, sep)[k] != []
    decreases |t|
  {
    var u := t[1..];
    if u != [] {
      if u[0] != sep {
        assert Words(u, sep);
        SplitWords(u, sep);
      } else {
        var w := u[1..];
        assert t[1] == sep && |t| > 2;
        assert Words(w, sep);
        SplitWords(w, sep);
        assert SplitOn(u, sep) == [""] + SplitOn(w, sep);
      }
    }
  }

  /**
   * The tokens of a line joined by blanks are the line with its whitespace collapsed and
   * trimmed: only whitespace is lost.  A line of whitespace only gives the single empty
   * token; any other line gives non-empty tokens only.
   */
  lemma TokensCharacterised(line: string)
    ensures Join(Tokens(line), ' ') == Trim(Collapse(line))
    ensures (forall i | 0 <= i < |line| :: IsSpace(line[i])) <==> Tokens(line) == [""]
    ensures (exists i | 0 <= i < |line| :: !IsSpace(line[i])) ==>
      forall k | 0 <= k < |Tokens(line)| :: Tokens(line)[k] != ""
  {
    var c := Collapse(line);
    var t := Trim(c);
    SplitJoin(t, ' ');
    TrimIsSlice(c);
    var a := |c| - |SkipSpaces(c)|;
    if forall i | 0 <= i < |line| :: IsSpace(line[i]) {
      CollapseAllSpaces(line);
    } else {
      var i :| 0 <= i < |line| && !IsSpace(line[i]);
      CollapseKeepsWords(line);
      var p :| 0 <= p < |c| && c[p] == line[i];
      assert a <= p < a + |t|;
      CollapseNoDoubleSpace(line);
      forall j | 0 <= j < |t| - 1 ensures !(t[j] == ' ' && t[j + 1] == ' ') {
        assert t[j] == c[a + j] && t[j + 1] == c[a + j + 1];
      }
      SplitWords(t, ' ');
    }
  }

  // ---------------------------------------------------------------------------
  // An independent reference for the tokens: the words of a line, split at every
  // whitespace character with the empty pieces dropped (what `Split` with
  // `RemoveEmptyEntries` over the `\s` set gives).  No collapse and no trim.

  /** The pieces between whitespace characters, empty ones included; never no piece. */
  function SplitAtSpaces(s: string): (r: seq<string>)
    ensures |r| >= 1
  {
    if s == [] then [""]
    else
      var rest := SplitAtSpaces(s[1..]);
      if IsSpace(s[0]) then [""] + rest else [[s[0]] + rest[0]] + rest[1..]
  }

  /** The non-empty pieces, in order. */
  function DropEmpty(ps: seq<string>): seq<string> {
    if ps == [] then [] else (if ps[0] == "" then [] else [ps[0]]) + DropEmpty(ps[1..])
  }

  /** The whitespace-separated words of a line. */
  function WordsOf(line: string): seq<string> {
    DropEmpty(SplitAtSpaces(line))
  }

  lemma {:induction false} DropEmptyAppend(a: seq<string>, b: seq<string>)
    ensures DropEmpty(a + b) == DropEmpty(a) + DropEmpty(b)
  {
    if a == [] {
      assert a + b == b;
    } else {
      assert (a + b)[0] == a[0] && (a + b)[1..] == a[1..] + b;
      DropEmptyAppend(a[1..], b);
    }
  }

  lemma DropEmptyCons(p: string, ps: seq<string>)
    ensures DropEmpty([p] + ps) == (if p == "" then [] else [p]) + DropEmpty(ps)
  {
    assert ([p] + ps)[1..] == ps;
  }

  /** Two piece lists with the same first piece and the same words have the same words after it. */
  lemma WordsAfterFirst(r: seq<string>, q: seq<string>)
    requires |r| >= 1 && |q| >= 1 && r[0] == q[0] && DropEmpty(r) == DropEmpty(q)
    ensures DropEmpty(r[1..]) == DropEmpty(q[1..])
  {
    var h := if r[0] == "" then [] else [r[0]];
    assert DropEmpty(r) == h + DropEmpty(r[1..]);
    assert DropEmpty(q) == h + DropEmpty(q[1..]);
    assert DropEmpty(r[1..]) == DropEmpty(r)[|h|..];
  }

  /** Pieces that are all non-empty are kept as they are. */
  lemma {:induction false} DropEmptyKeeps(ps: seq<string>)
    requires forall k | 0 <= k < |ps| :: ps[k] != ""
    ensures DropEmpty(ps) == ps
  {
    if ps != [] {
      DropEmptyKeeps(ps[1..]);
    }
  }

  /**
   * The collapse keeps the words of a line: the same non-empty pieces, in the same order
   * and as often, and the same leading piece.
   */
  lemma {:induction false} CollapseWords(s: string)
    ensures SplitAtSpaces(Collapse(s))[0] == SplitAtSpaces(s)[0]
    ensures WordsOf(Collapse(s)) == WordsOf(s)
  {
    if s != [] {
      CollapseWords(s[1..]);
      var r := SplitAtSpaces(s[1..]);
      var cr := SplitAtSpaces(Collapse(s[1..]));
      assert DropEmpty([""] + r) == DropEmpty(r) by {
        assert ([""] + r)[1..] == r;
      }
      assert DropEmpty([""] + cr) == DropEmpty(cr) by {
        assert ([""] + cr)[1..] == cr;
      }
      if IsSpace(s[0]) && |s| > 1 && IsSpace(s[1]) {
        assert s[1..][0] == s[1];
      } else if IsSpace(s[0]) {
        assert Collapse(s) == [' '] + Collapse(s[1..]);
        assert ([' '] + Collapse(s[1..]))[1..] == Collapse(s[1..]);
        assert IsSpace(' ') && SplitAtSpaces(Collapse(s)) == [""] + cr;
        assert SplitAtSpaces(s) == [""] + r;
      } else {
        var c := Collapse(s);
        assert c == [s[0]] + Collapse(s[1..]) && c[1..] == Collapse(s[1..]);
        assert SplitAtSpaces(c) == [[s[0]] + cr[0]] + cr[1..];
        assert SplitAtSpaces(s) == [[s[0]] + r[0]] + r[1..];
        WordsAfterFirst(r, cr);
        DropEmptyCons([s[0]] + r[0], r[1..]);
        DropEmptyCons([s[0]] + cr[0], cr[1..]);
      }
    }
  }

  /** `TrimStart` keeps the words of a line. */
  lemma {:induction false} SkipSpacesWords(s: string)
    ensures WordsOf(SkipSpaces(s)) == WordsOf(s)
  {
    if s != [] && IsSpace(s[0]) {
      SkipSpacesWords(s[1..]);
      var r := SplitAtSpaces(s[1..]);
      assert ([""] + r)[1..] == r;
    }
  }

  /** A trailing whitespace character adds one empty piece at the end. */
  lemma {:induction false} SplitAtSpacesSnoc(u: string, c: char)
    requires IsSpace(c)
    ensures SplitAtSpaces(u + [c]) == SplitAtSpaces(u) + [""]
  {
    if u == [] {
      assert u + [c] == [c] && [c][1..] == [];
    } else {
      assert (u + [c])[0] == u[0] && (u + [c])[1..] == u[1..] + [c];
      SplitAtSpacesSnoc(u[1..], c);
      var r := SplitAtSpaces(u[1..]);
      if !IsSpace(u[0]) {
        assert (r + [""])[0] == r[0] && (r + [""])[1..] == r[1..] + [""];
      }
    }
  }

  /** `TrimEnd` keeps the words of a line. */
  lemma {:induction false} TrimEndWords(s: string)
    ensures WordsOf(TrimEnd(s)) == WordsOf(s)
  {
    if s != [] && IsSpace(s[|s| - 1]) {
      var u := s[..|s| - 1];
      TrimEndWords(u);
      assert s == u + [s[|s| - 1]];
      SplitAtSpacesSnoc(u, s[|s| - 1]);
      DropEmptyAppend(SplitAtSpaces(u), [""]);
      assert DropEmpty([""]) == [];
    }
  }

  /** Where the blank is the only whitespace, `Split(' ')` splits at every whitespace character. */
  lemma {:induction false} SplitOnBlank(t: string)
    requires forall c | c in t :: IsSpace(c) ==> c == ' '
    ensures SplitOn(t, ' ') == SplitAtSpaces(t)
  {
    if t != [] {
      assert t[0] in t;
      SplitOnBlank(t[1..]);
    }
  }

  /**
   * The tokens of a line are its whitespace-separated words, in order; a line without words
   * (empty or whitespace only) gives the single empty token.
   */
  lemma TokensAreWords(line: string)
    ensures Tokens(line) == if WordsOf(line) == [] then [""] else WordsOf(line)
  {
    var c := Collapse(line);
    var t := Trim(c);
    CollapseWords(line);
    SkipSpacesWords(c);
    TrimEndWords(SkipSpaces(c));
    assert WordsOf(t) == WordsOf(line);
    CollapseOnlyBlanks(line);
    TrimIsSlice(c);
    forall ch | ch in t ensures ch in c {
      var j :| 0 <= j < |t| && t[j] == ch;
      assert c[|c| - |SkipSpaces(c)| + j] == ch;
    }
    SplitOnBlank(t);
    TokensCharacterised(line);
    if forall i | 0 <= i < |line| :: IsSpace(line[i]) {
      assert SplitAtSpaces(t) == [""];
      assert DropEmpty([""]) == [];
    } else {
      DropEmptyKeeps(Tokens(line));
    }
  }

  // ---------------------------------------------------------------------------
  // Reading the vertices.  From here on a line is given by its tokens.

  /**
   * `Convert.ToDouble(parts[i])`: an index error on a short line, a format error on a
   * non-number, an overflow error on a number too large for `double`.
   */
  function Coordinate<D>(parts: seq<string>, i: nat, nums: TextNumerics<D>): Result<D> {
    if i >= |parts| then Err(IndexOutOfRange)
    else match nums.toDouble(parts[i])
      case NotANumber => Err(FormatError)
      case OutOfRange => Err(Overflow)
      case Number(d) => Ok(d)
  }

  /** The three coordinates after `vertex`, read x, then y, then z. */
  function ParseVertex<D>(parts: seq<string>, nums: TextNumerics<D>): Result<FPoint3<D>> {
    match Coordinate(parts, 1, nums)
    case Err(e) => Err(e)
    case Ok(x) =>
      match Coordinate(parts, 2, nums)
      case Err(e) => Err(e)
      case Ok(y) =>
        match Coordinate(parts, 3, nums)
        case Err(e) => Err(e)
        case Ok(z) => Ok(FPoint3(x, y, z))
  }

  /** `vertex *= 1000.0`: millimetres to micrometres, on every coordinate. */
  function Scale<D>(v: FPoint3<D>, times1000: D -> D): FPoint3<D> {
    FPoint3(times1000(v.x), times1000(v.y), times1000(v.z))
  }

  /**
   * `matrix.apply(vertex)`: the transform from a scaled vertex to an integer point.  A named
   * function rather than a bare `matrix(v)` so that the point a vertex line contributes is one
   * term the lemmas and the loop invariants of the decoder share.
   */
  function Transform<D>(matrix: FPoint3<D> -> Point3, v: FPoint3<D>): Point3 {
    matrix(v)
  }

  /** The point a `vertex` line contributes: parsed, scaled, then transformed by `matrix`. */
  function VertexPoint<D>(parts: seq<string>, nums: TextNumerics<D>, matrix: FPoint3<D> -> Point3): Result<Point3> {
    match ParseVertex(parts, nums)
    case Err(e) => Err(e)
    case Ok(v) => Ok(Transform(matrix, Scale(v, nums.times1000)))
  }

  /** The points of a tokenized file in read order, stopping at the first exception (the decoder loop, line by line). */
  function TextVertices<D>(tls: seq<seq<string>>, nums: TextNumerics<D>, matrix: FPoint3<D> -> Point3): Result<seq<Point3>>
  {
    if tls == [] then Ok([])
    else
      var last := tls[|tls| - 1];
      match TextVertices(tls[..|tls| - 1], nums, matrix)
      case Err(e) => Err(e)
      case Ok(vs) =>
        if !IsVertexLine(last) then Ok(vs)
        else match VertexPoint(last, nums, matrix)
          case Err(e) => Err(e)
          case Ok(p) => Ok(vs + [p])
  }

  /** The `vertex` lines of a tokenized file, in order. */
  function VertexLines(tls: seq<seq<string>>): seq<seq<string>> {
    if tls == [] then []
    else
      var last := tls[|tls| - 1];
      VertexLines(tls[..|tls| - 1]) + (if IsVertexLine(last) then [last] else [])
  }

  /** The points of a list of `vertex` lines, or the exception of the first one that fails. */
  function Points<D>(vls: seq<seq<string>>, nums: TextNumerics<D>, matrix: FPoint3<D> -> Point3): Result<seq<Point3>> {
    if vls == [] then Ok([])
    else match Points(vls[..|vls| - 1], nums, matrix)
      case Err(e) => Err(e)
      case Ok(vs) =>
        match VertexPoint(vls[|vls| - 1], nums, matrix)
        case Err(e) => Err(e)
        case Ok(p) => Ok(vs + [p])
  }

  /** Consecutive triples of points as faces; a trailing one or two points are dropped. */
  function Group(vs: seq<Point3>): seq<SimpleFace> {
    if |vs| < 3 then [] else [SimpleFace(vs[0], vs[1], vs[2])] + Group(vs[3..])
  }

  /** What the text decoder produces for a file: its faces, or the exception that escapes. */
  function TextDecode<D>(lines: seq<string>, nums: TextNumerics<D>, matrix: FPoint3<D> -> Point3): Decoded {
    match TextVertices(LineParts(lines), nums, matrix)
    case Err(e) => Thrown(e)
    case Ok(vs) => Mesh(Group(vs))
  }

  // ---------------------------------------------------------------------------
  // Properties.

  lemma {:induction false} VertexLinesAppend(a: seq<seq<string>>, b: seq<seq<string>>)
    ensures VertexLines(a + b) == VertexLines(a) + VertexLines(b)
    decreases |b|
  {
    if b == [] {
      assert a + b == a;
    } else {
      var b' := b[..|b| - 1];
      VertexLinesAppend(a, b');
      assert (a + b)[..|a + b| - 1] == a + b';
      assert b[|b| - 1] == (a + b)[|a + b| - 1];
    }
  }

  /** Reading line by line is the same as first picking out the `vertex` lines and then reading those. */
  lemma {:induction false} TextVerticesIsPoints<D>(tls: seq<seq<string>>, nums: TextNumerics<D>, matrix: FPoint3<D> -> Point3)
    ensures TextVertices(tls, nums, matrix) == Points(VertexLines(tls), nums, matrix)
  {
    if tls != [] {
      var init, last := tls[..|tls| - 1], tls[|tls| - 1];
      TextVerticesIsPoints(init, nums, matrix);
      var vls := VertexLines(init);
      if IsVertexLine(last) {
        assert VertexLines(tls) == vls + [last];
        assert (vls + [last])[..|vls|] == vls;
      } else {
        assert VertexLines(tls) == vls + [] == vls;
      }
    }
  }

  /** A line that is not a `vertex` line changes nothing, wherever it stands. */
  lemma NonVertexLineInert<D>(a: seq<seq<string>>, l: seq<string>, b: seq<seq<string>>, nums: TextNumerics<D>, matrix: FPoint3<D> -> Point3)
    requires !IsVertexLine(l)
    ensures TextVertices(a + [l] + b, nums, matrix) == TextVertices(a + b, nums, matrix)
  {
    VertexLinesAppend(a + [l], b);
    VertexLinesAppend(a, [l]);
    VertexLinesAppend(a, b);
    assert [l][..0] == [];
    assert VertexLines([l]) == VertexLines([]) + [] == [];
    assert VertexLines(a + [l] + b) == VertexLines(a + b);
    TextVerticesIsPoints(a + [l] + b, nums, matrix);
    TextVerticesIsPoints(a + b, nums, matrix);
  }

  /**
   * The points of `vertex` lines are all there, one per line and in order, exactly when
   * every line parses; otherwise the exception is that of the first line that fails.
   */
  lemma PointsCharacterised<D>(vls: seq<seq<string>>, nums: TextNumerics<D>, matrix: FPoint3<D> -> Point3)
    ensures Points(vls, nums, matrix).Ok? <==> forall i | 0 <= i < |vls| :: VertexPoint(vls[i], nums, matrix).Ok?
    ensures Points(vls, nums, matrix).Ok? ==>
      var vs := Points(vls, nums, matrix).value;
      |vs| == |vls| && forall i | 0 <= i < |vls| :: vs[i] == VertexPoint(vls[i], nums, matrix).value
    ensures Points(vls, nums, matrix).Err? ==>
      exists i | 0 <= i < |vls| ::
        VertexPoint(vls[i], nums, matrix) == Err(Points(vls, nums, matrix).error) &&
        forall k | 0 <= k < i :: VertexPoint(vls[k], nums, matrix).Ok?
  {
    PointsAllParse(vls, nums, matrix);
    PointsFirstFailure(vls, nums, matrix);
  }

  /** The success half: every line parses, and then the points are the lines' points in order. */
  lemma {:induction false} PointsAllParse<D>(vls: seq<seq<string>>, nums: TextNumerics<D>, matrix: FPoint3<D> -> Point3)
    ensures Points(vls, nums, matrix).Ok? <==> forall i | 0 <= i < |vls| :: VertexPoint(vls[i], nums, matrix).Ok?
    ensures Points(vls, nums, matrix).Ok? ==>
      var vs := Points(vls, nums, matrix).value;
      |vs| == |vls| && forall i | 0 <= i < |vls| :: vs[i] == VertexPoint(vls[i], nums, matrix).value
  {
    if vls != [] {
      var n := |vls| - 1;
      var init := vls[..n];
      PointsAllParse(init, nums, matrix);
      assert forall i | 0 <= i < n :: init[i] == vls[i];
    }
  }

  /** The failure half: the exception is that of the first line that does not parse. */
  lemma {:induction false} PointsFirstFailure<D>(vls: seq<seq<string>>, nums: TextNumerics<D>, matrix: FPoint3<D> -> Point3)
    ensures Points(vls, nums, matrix).Err? ==>
      exists i | 0 <= i < |vls| ::
        VertexPoint(vls[i], nums, matrix) == Err(Points(vls, nums, matrix).error) &&
        forall k | 0 <= k < i :: VertexPoint(vls[k], nums, matrix).Ok?
  {
    if vls != [] {
      var n := |vls| - 1;
      var init := vls[..n];
      assert forall i | 0 <= i < n :: init[i] == vls[i];
      match Points(init, nums, matrix)
      case Err(e) => {
        PointsFirstFailure(init, nums, matrix);
        var i :| 0 <= i < n && VertexPoint(init[i], nums, matrix) == Err(e) &&
          forall k | 0 <= k < i :: VertexPoint(init[k], nums, matrix).Ok?;
        assert VertexPoint(vls[i], nums, matrix) == Err(e);
      }
      case Ok(vs) => {
        if VertexPoint(vls[n], nums, matrix).Err? {
          PointsAllParse(init, nums, matrix);
          assert forall k | 0 <= k < n :: VertexPoint(vls[k], nums, matrix).Ok?;
        }
      }
    }
  }

  /** A line that is not a `vertex` line adds no point. */
  lemma TextVerticesSkip<D>(tls: seq<seq<string>>, i: nat, nums: TextNumerics<D>, matrix: FPoint3<D> -> Point3)
    requires i < |tls| && !IsVertexLine(tls[i])
    ensures TextVertices(tls[..i + 1], nums, matrix) == TextVertices(tls[..i], nums, matrix)
  {
    assert tls[..i + 1][..i] == tls[..i];
  }

  /** A `vertex` line that parses adds its point after those read so far. */
  lemma TextVerticesAppend<D>(tls: seq<seq<string>>, i: nat, vs: seq<Point3>, p: Point3, nums: TextNumerics<D>, matrix: FPoint3<D> -> Point3)
    requires i < |tls| && IsVertexLine(tls[i])
    requires TextVertices(tls[..i], nums, matrix) == Ok(vs) && VertexPoint(tls[i], nums, matrix) == Ok(p)
    ensures TextVertices(tls[..i + 1], nums, matrix) == Ok(vs + [p])
  {
    assert tls[..i + 1][..i] == tls[..i];
  }

  /** An exception in a prefix of the file is the exception of the whole file. */
  lemma {:induction false} TextVerticesErrPersists<D>(tls: seq<seq<string>>, i: nat, nums: TextNumerics<D>, matrix: FPoint3<D> -> Point3)
    requires i <= |tls| && TextVertices(tls[..i], nums, matrix).Err?
    ensures TextVertices(tls, nums, matrix) == TextVertices(tls[..i], nums, matrix)
    decreases |tls| - i
  {
    if i < |tls| {
      assert tls[..i + 1][..i] == tls[..i];
      TextVerticesErrPersists(tls, i + 1, nums, matrix);
    } else {
      assert tls[..i] == tls;
    }
  }

  /** One more point completes a face exactly when two points were waiting. */
  lemma {:induction false} GroupSnoc(vs: seq<Point3>, p: Point3)
    ensures Group(vs + [p]) ==
      if |vs| % 3 == 2 then Group(vs) + [SimpleFace(vs[|vs| - 2], vs[|vs| - 1], p)] else Group(vs)
  {
    if |vs| >= 3 {
      GroupSnoc(vs[3..], p);
      assert (vs + [p])[3..] == vs[3..] + [p];
    }
  }

  /** Face k is made of points 3k, 3k+1 and 3k+2; there are |vs|/3 faces. */
  lemma {:induction false} GroupShape(vs: seq<Point3>)
    ensures |Group(vs)| == |vs| / 3
    ensures forall k | 0 <= k < |vs| / 3 :: Group(vs)[k] == SimpleFace(vs[3 * k], vs[3 * k + 1], vs[3 * k + 2])
  {
    if |vs| >= 3 {
      GroupShape(vs[3..]);
      forall k | 1 <= k < |vs| / 3
        ensures Group(vs)[k] == SimpleFace(vs[3 * k], vs[3 * k + 1], vs[3 * k + 2])
      {
        assert Group(vs)[k] == Group(vs[3..])[k - 1];
        assert vs[3..][3 * (k - 1)] == vs[3 * k];
      }
    }
  }

  /** A trailing partial triangle (one or two points) is dropped silently. */
  lemma {:induction false} GroupDropsRemainder(vs: seq<Point3>, rest: seq<Point3>)
    requires |vs| % 3 == 0 && |rest| < 3
    ensures Group(vs + rest) == Group(vs)
  {
    if |vs| >= 3 {
      GroupDropsRemainder(vs[3..], rest);
      assert (vs + rest)[3..] == vs[3..] + rest;
    }
  }

  /** Three more points after whole faces make one more face. */
  lemma {:induction false} GroupAppendFace(vs: seq<Point3>, f: SimpleFace)
    requires |vs| % 3 == 0
    ensures Group(vs + [f.v0, f.v1, f.v2]) == Group(vs) + [f]
  {
    if |vs| >= 3 {
      GroupAppendFace(vs[3..], f);
      assert (vs + [f.v0, f.v1, f.v2])[3..] == vs[3..] + [f.v0, f.v1, f.v2];
    } else {
      assert vs == [];
    }
  }

  /** Grouping undoes flattening: the points of some faces, plus at most two more, group back into those faces. */
  lemma GroupOfVertices(faces: seq<SimpleFace>, rest: seq<Point3>)
    requires |rest| < 3
    ensures Group(Vertices(faces) + rest) == faces
  {
    GroupDropsRemainder(Vertices(faces), rest);
    GroupOfFaces(faces);
  }

  lemma {:induction false} GroupOfFaces(faces: seq<SimpleFace>)
    ensures Group(Vertices(faces)) == faces
  {
    if faces != [] {
      var init, f := faces[..|faces| - 1], faces[|faces| - 1];
      GroupOfFaces(init);
      GroupAppendFace(Vertices(init), f);
      assert init + [f] == faces;
    }
  }

  /**
   * The text decoder either yields ⌊(number of `vertex` lines)/3⌋ faces, face k built from the
   * (3k)-th, (3k+1)-th and (3k+2)-th `vertex` lines in that order, or throws the exception of
   * the first `vertex` line that does not parse; it never yields "no model".
   */
  lemma TextDecodeShape<D>(lines: seq<string>, nums: TextNumerics<D>, matrix: FPoint3<D> -> Point3)
    ensures !TextDecode(lines, nums, matrix).NoModel?
    ensures TextDecode(lines, nums, matrix).Mesh? <==>
      forall i | 0 <= i < |VertexLines(LineParts(lines))| :: VertexPoint(VertexLines(LineParts(lines))[i], nums, matrix).Ok?
    ensures TextDecode(lines, nums, matrix).Mesh? ==>
      var vls, fs := VertexLines(LineParts(lines)), TextDecode(lines, nums, matrix).faces;
      |fs| == |vls| / 3 &&
      forall k | 0 <= k < |fs| ::
        fs[k] == SimpleFace(VertexPoint(vls[3 * k], nums, matrix).value,
                            VertexPoint(vls[3 * k + 1], nums, matrix).value,
                            VertexPoint(vls[3 * k + 2], nums, matrix).value)
    ensures TextDecode(lines, nums, matrix).Thrown? ==>
      var vls := VertexLines(LineParts(lines));
      exists i | 0 <= i < |vls| ::
        VertexPoint(vls[i], nums, matrix) == Err(TextDecode(lines, nums, matrix).error) &&
        forall k | 0 <= k < i :: VertexPoint(vls[k], nums, matrix).Ok?
  {
    var tls := LineParts(lines);
    TextVerticesIsPoints(tls, nums, matrix);
    PointsCharacterised(VertexLines(tls), nums, matrix);
    var vls := VertexLines(tls);
    assert TextDecode(lines, nums, matrix).Mesh? <==> Points(vls, nums, matrix).Ok?;
    assert TextDecode(lines, nums, matrix).Mesh? <==> forall i | 0 <= i < |vls| :: VertexPoint(vls[i], nums, matrix).Ok?;
    assert vls == VertexLines(LineParts(lines));
    if TextVertices(tls, nums, matrix).Ok? {
      GroupShape(TextVertices(tls, nums, matrix).value);
    }
  }

  /**
   * A `vertex` line parses only when at least three tokens follow `vertex`; otherwise it
   * throws, an index error unless a coordinate before the missing one fails first.
   */
  lemma VertexPointNeedsThreeCoordinates<D>(parts: seq<string>, nums: TextNumerics<D>, matrix: FPoint3<D> -> Point3)
    ensures VertexPoint(parts, nums, matrix).Ok? ==> |parts| >= 4
    ensures |parts| < 4 ==>
      VertexPoint(parts, nums, matrix) == Err(IndexOutOfRange) ||
      VertexPoint(parts, nums, matrix) == Err(FormatError) ||
      VertexPoint(parts, nums, matrix) == Err(Overflow)
    ensures |parts| < 4 && (forall k | 1 <= k < |parts| :: nums.toDouble(parts[k]).Number?) ==>
      VertexPoint(parts, nums, matrix) == Err(IndexOutOfRange)
    ensures |parts| < 4 && VertexPoint(parts, nums, matrix) != Err(IndexOutOfRange) ==>
      exists k | 1 <= k < |parts| :: !nums.toDouble(parts[k]).Number?
  {
  }

  /** Hence a file decodes only if every `vertex` line carries three coordinates. */
  lemma TruncatedVertexLineThrows<D>(lines: seq<string>, nums: TextNumerics<D>, matrix: FPoint3<D> -> Point3)
    ensures TextDecode(lines, nums, matrix).Mesh? ==>
      forall parts | parts in VertexLines(LineParts(lines)) :: |parts| >= 4
  {
    TextDecodeShape(lines, nums, matrix);
    forall parts | parts in VertexLines(LineParts(lines)) ensures VertexPoint(parts, nums, matrix).Ok? ==> |parts| >= 4 {
      VertexPointNeedsThreeCoordinates(parts, nums, matrix);
    }
  }

  /** A file without `vertex` lines (a binary file read as text, an empty mesh) yields no faces. */
  lemma NoVertexLinesNoFaces<D>(lines: seq<string>, nums: TextNumerics<D>, matrix: FPoint3<D> -> Point3)
    requires VertexLines(LineParts(lines)) == []
    ensures TextDecode(lines, nums, matrix) == Mesh([])
  {
    TextVerticesIsPoints(LineParts(lines), nums, matrix);
  }
}

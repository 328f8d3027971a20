/**
 * The SGF lexer of src/sgf.js (and its older copy in src/new.js): SGF points,
 * `nextToken`, `tokenize`, and the unescaping of property values.
 */
module SgfLexer {
  import opened Wrappers
  import opened Exceptions
  import opened GoBoard

  /** A lexical token: `(`, `)`, `;`, or a `[key, value]` property pair. */
  datatype Token = StartVariation | EndVariation | StartMove | Property(key: string, value: string)

  /** Which copy of the reader: src/sgf.js throws `Error` objects, the older
      src/new.js throws bare strings carrying the same messages. */
  datatype Copy = SgfJs | NewJs

  const INVALID_SGF := "Invalid SGF"
  const SENTINEL := "@@BACKSLASH@@"
  const NOT_A_POINT := "Must pass a string of length 2"
  /** The message of the TypeError a compiled class throws when called without `new`. */
  const CLASS_CALL := "Cannot call a class as a function"

  /** The value `copy` throws for `message`. */
  function Raise(copy: Copy, message: string): (t: Thrown)
    ensures t.Text? <==> copy == NewJs
    ensures t.Text? || t.ErrorObject?
    ensures t.message == message
  {
    match copy
    case SgfJs => ErrorObject(Error, message)
    case NewJs => Text(message)
  }

  // ---------------------------------------------------------------- points

  /** A UTF-16 code unit that is also a Unicode scalar value. */
  predicate IsScalarCode(n: int) {
    (0 <= n < 0xD800) || (0xE000 <= n < 0x10000)
  }

  /** `String.fromCharCode(n)`: the code is taken modulo 2^16. */
  function FromCharCode(n: int): (ch: char)
    requires IsScalarCode(n % 0x10000)
    ensures ch as int == n % 0x10000
  {
    (n % 0x10000) as char
  }

  /** `coordinateToSgfPoint`: two characters with codes 97 + x and 97 + y. */
  function CoordinateToSgfPoint(c: Coord): (s: string)
    requires IsScalarCode((97 + c.x) % 0x10000) && IsScalarCode((97 + c.y) % 0x10000)
    ensures |s| == 2 && s[0] as int == (97 + c.x) % 0x10000 && s[1] as int == (97 + c.y) % 0x10000
  {
    [FromCharCode(97 + c.x), FromCharCode(97 + c.y)]
  }

  /** What `sgfPointToCoordinate` may be handed: a string or anything else. */
  datatype Argument = JsString(s: string) | NotAString

  /** Reading an SGF point as intended, and as `src/new.js` does it: a string
      of length two becomes the coordinate of its character codes less 97;
      anything else is a TypeError. */
  function PointToCoordinate(arg: Argument): (r: Result<Coord, Thrown>)
    ensures r.Success? <==> arg.JsString? && |arg.s| == 2
    ensures r.Failure? ==> r.error == ErrorObject(TypeError, NOT_A_POINT)
    ensures r.Success? ==> r.value == Coord(arg.s[0] as int - 97, arg.s[1] as int - 97)
  {
    if arg.JsString? && |arg.s| == 2 then
      Success(Coord(arg.s[0] as int - 97, arg.s[1] as int - 97))
    else
      Failure(ErrorObject(TypeError, NOT_A_POINT))
  }

  /** `sgfPointToCoordinate` as each copy writes it. `src/new.js` builds the
      result with `new Coordinate`; `src/sgf.js` calls the class `Coordinate`
      without `new`, which the compiled class rejects with a TypeError, so that
      copy throws on every argument. */
  function SgfPointToCoordinate(copy: Copy, arg: Argument): (r: Result<Coord, Thrown>)
    ensures r.Success? <==> copy == NewJs && arg.JsString? && |arg.s| == 2
    ensures r.Success? ==> r == PointToCoordinate(arg)
    ensures r.Failure? ==> r.error.ErrorObject? && r.error.kind == TypeError
    ensures r.Failure? && arg.JsString? && |arg.s| == 2 ==> r.error.message == CLASS_CALL
    ensures r.Failure? && !(arg.JsString? && |arg.s| == 2) ==> r.error.message == NOT_A_POINT
  {
    match copy
    case NewJs => PointToCoordinate(arg)
    case SgfJs =>
      if arg.JsString? && |arg.s| == 2 then Failure(ErrorObject(TypeError, CLASS_CALL))
      else PointToCoordinate(arg)
  }

  /** The copy in `src/sgf.js` throws on `'aa'`, where the copy in `src/new.js`
      and the documentation give (0, 0); it throws on every two-character
      string. */
  lemma SgfJsPointThrows(s: string)
    requires |s| == 2
    ensures SgfPointToCoordinate(SgfJs, JsString("aa")) == Failure(ErrorObject(TypeError, CLASS_CALL))
    ensures SgfPointToCoordinate(NewJs, JsString("aa")) == Success(Coord(0, 0))
    ensures SgfPointToCoordinate(SgfJs, JsString(s)).Failure?
    ensures SgfPointToCoordinate(NewJs, JsString(s)).Success?
  {
  }

  /** A point written by `coordinateToSgfPoint` reads back as the same coordinate
      whenever 97 + x and 97 + y are code units (no wrap-around). */
  lemma SgfPointRoundTrip(c: Coord)
    requires IsScalarCode(97 + c.x) && IsScalarCode(97 + c.y)
    ensures PointToCoordinate(JsString(CoordinateToSgfPoint(c))) == Success(c)
  {
  }

  /** Reading a point then writing it gives the same two characters. */
  lemma SgfPointRoundTripText(s: string)
    requires |s| == 2 && s[0] as int < 0x10000 && s[1] as int < 0x10000
    ensures PointToCoordinate(JsString(s)).Success?
    ensures CoordinateToSgfPoint(PointToCoordinate(JsString(s)).value) == s
  {
    var c := PointToCoordinate(JsString(s)).value;
    var t := CoordinateToSgfPoint(c);
    assert t[0] == s[0] && t[1] == s[1];
  }

  /** The examples of the documentation: `aa` is (0, 0) and `hi` is (7, 8); a
      string of another length is refused. */
  lemma SgfPointExamples()
    ensures PointToCoordinate(JsString("aa")) == Success(Coord(0, 0))
    ensures PointToCoordinate(JsString("hi")) == Success(Coord(7, 8))
    ensures CoordinateToSgfPoint(Coord(7, 8)) == "hi"
    ensures PointToCoordinate(JsString("abc")).Failure?
  {
  }

  /** `fromCharCode` keeps only 16 bits: x = 65536 writes the same point as x = 0. */
  lemma SgfPointWrapsAround()
    ensures CoordinateToSgfPoint(Coord(0x10000, 0)) == CoordinateToSgfPoint(Coord(0, 0))
  {
  }

  // ------------------------------------------------------------ characters

  /** JavaScript white space and line terminators, as `trim` and `trimStart` remove them. */
  predicate IsWhitespace(ch: char) {
    || ch == '\t' || ch == '\n' || ch == '\U{000B}' || ch == '\U{000C}' || ch == '\r' || ch == ' '
    || ch == '\U{00A0}' || ch == '\U{1680}' || ('\U{2000}' <= ch <= '\U{200A}')
    || ch == '\U{2028}' || ch == '\U{2029}' || ch == '\U{202F}' || ch == '\U{205F}'
    || ch == '\U{3000}' || ch == '\U{FEFF}'
  }

  /** `[a-zA-Z]`. */
  predicate IsLetter(ch: char) {
    ('a' <= ch <= 'z') || ('A' <= ch <= 'Z')
  }

  /** The characters `nextToken` returns on their own. */
  predicate IsStructural(ch: char) {
    ch == '(' || ch == ')' || ch == ';'
  }

  /** lodash `trimStart`: drop the leading white space. */
  function TrimStart(s: string): (r: string)
    ensures |r| <= |s|
  {
    if s != [] && IsWhitespace(s[0]) then TrimStart(s[1..]) else s
  }

  /** `trimStart` removes exactly the leading white space: what it keeps is a
      suffix that does not start with white space, and all it drops is white space. */
  lemma {:induction false} TrimStartSpec(s: string)
    ensures var r := TrimStart(s);
      && r == s[|s| - |r|..]
      && (r == [] || !IsWhitespace(r[0]))
      && forall i :: 0 <= i < |s| - |r| ==> IsWhitespace(s[i])
    decreases |s|
  {
    if s != [] && IsWhitespace(s[0]) {
      TrimStartSpec(s[1..]);
    }
  }

  /** Drop the trailing white space. */
  function TrimEnd(s: string): (r: string)
    ensures |r| <= |s|
  {
    if s != [] && IsWhitespace(s[|s| - 1]) then TrimEnd(s[..|s| - 1]) else s
  }

  /** The end of `trim` removes exactly the trailing white space. */
  lemma {:induction false} TrimEndSpec(s: string)
    ensures var r := TrimEnd(s);
      && r == s[..|r|]
      && (r == [] || !IsWhitespace(r[|r| - 1]))
      && forall i :: |r| <= i < |s| ==> IsWhitespace(s[i])
    decreases |s|
  {
    if s != [] && IsWhitespace(s[|s| - 1]) {
      TrimEndSpec(s[..|s| - 1]);
    }
  }

  /** `String.prototype.trim`. */
  function Trim(s: string): (r: string)
    ensures |r| <= |s|
  {
    TrimEnd(TrimStart(s))
  }

  lemma TrimStartNoOp(s: string)
    requires s == [] || !IsWhitespace(s[0])
    ensures TrimStart(s) == s
  {
  }

  lemma TrimStartSkip(s: string)
    requires s != [] && IsWhitespace(s[0])
    ensures TrimStart(s) == TrimStart(s[1..])
  {
  }

  lemma TrimEndNoOp(s: string)
    requires s == [] || !IsWhitespace(s[|s| - 1])
    ensures TrimEnd(s) == s
  {
  }

  /** The length of the `^[a-zA-Z]+` match, or 0 when there is none. */
  function LetterRun(s: string): (n: nat)
    ensures n <= |s|
  {
    if s != [] && IsLetter(s[0]) then 1 + LetterRun(s[1..]) else 0
  }

  /** The key is the longest prefix of letters. */
  lemma {:induction false} LetterRunSpec(s: string)
    ensures forall i :: 0 <= i < LetterRun(s) ==> IsLetter(s[i])
    ensures LetterRun(s) == |s| || !IsLetter(s[LetterRun(s)])
    decreases |s|
  {
    if s != [] && IsLetter(s[0]) {
      LetterRunSpec(s[1..]);
    }
  }

  /** `s[i]` and `s[i + 1]` match `/[^\\]\]/`: a `]` after anything but a backslash. */
  predicate ClosesAt(s: string, i: int) {
    0 <= i && i + 1 < |s| && s[i] != '\\' && s[i + 1] == ']'
  }

  /** The index of the first match of `/[^\\]\]/` at or after `from`. */
  function FindClose(s: string, from: nat): (r: Option<nat>)
    requires from <= |s|
    ensures r.Some? ==> from <= r.value && ClosesAt(s, r.value)
    ensures r.Some? ==> forall j :: from <= j < r.value ==> !ClosesAt(s, j)
    ensures r.None? ==> forall j :: from <= j ==> !ClosesAt(s, j)
    decreases |s| - from
  {
    if from + 1 >= |s| then None
    else if ClosesAt(s, from) then Some(from)
    else FindClose(s, from + 1)
  }

  // ------------------------------------------------------------- unescaping

  /** `replace(/\\\\/g, sentinel)`: every pair of backslashes, left to right. */
  function PairsToSentinel(s: string): string {
    if |s| >= 2 && s[0] == '\\' && s[1] == '\\' then
      SENTINEL + PairsToSentinel(s[2..])
    else if s == [] then
      []
    else
      [s[0]] + PairsToSentinel(s[1..])
  }

  /** `replace(/\\/g, '')`: every remaining backslash is dropped. */
  function DropBackslashes(s: string): (r: string)
    ensures '\\' !in r
  {
    if s == [] then []
    else if s[0] == '\\' then DropBackslashes(s[1..])
    else [s[0]] + DropBackslashes(s[1..])
  }

  /** `pat` occurs in `s` starting at index `j`. */
  predicate OccursAt(s: string, pat: string, j: int) {
    0 <= j && j + |pat| <= |s| && s[j..j + |pat|] == pat
  }

  /** The first index at or after `from` where `pat` occurs in `s`. */
  function IndexOf(s: string, pat: string, from: nat): (r: Option<nat>)
    requires from <= |s|
    ensures r.Some? ==> from <= r.value && OccursAt(s, pat, r.value)
    ensures r.Some? ==> forall j :: from <= j < r.value ==> !OccursAt(s, pat, j)
    ensures r.None? ==> forall j :: from <= j ==> !OccursAt(s, pat, j)
    decreases |s| - from
  {
    if from + |pat| > |s| then None
    else if s[from..from + |pat|] == pat then Some(from)
    else IndexOf(s, pat, from + 1)
  }

  /** `replace(pattern, replacement)` with a string pattern: the first occurrence only. */
  function ReplaceFirst(s: string, pat: string, rep: string): string {
    match IndexOf(s, pat, 0)
    case None => s
    case Some(i) => s[..i] + rep + s[i + |pat|..]
  }

  /** How `nextToken` unescapes a value: pairs become the sentinel, single
      backslashes vanish, then the first sentinel becomes one backslash. */
  function Unescape(s: string): string {
    ReplaceFirst(DropBackslashes(PairsToSentinel(s)), SENTINEL, "\\")
  }

  /** A text without `@` does not contain the sentinel. */
  lemma NoSentinelWithoutAt(s: string)
    requires '@' !in s
    ensures IndexOf(s, SENTINEL, 0) == None
  {
    forall j | 0 <= j ensures !OccursAt(s, SENTINEL, j) {
      if j + |SENTINEL| <= |s| {
        assert s[j] == s[j..j + |SENTINEL|][0];
      }
    }
  }

  lemma {:induction false} PairsToSentinelNoPairs(s: string)
    requires forall i :: 0 <= i < |s| - 1 ==> !(s[i] == '\\' && s[i + 1] == '\\')
    ensures PairsToSentinel(s) == s
    decreases |s|
  {
    if s != [] {
      PairsToSentinelNoPairs(s[1..]);
    }
  }

  lemma {:induction false} PairsToSentinelAppend(a: string, b: string)
    requires '\\' !in a
    ensures PairsToSentinel(a + b) == a + PairsToSentinel(b)
    decreases |a|
  {
    if a != [] {
      assert (a + b)[0] == a[0] && (a + b)[1..] == a[1..] + b;
      PairsToSentinelAppend(a[1..], b);
      AppendAssoc([a[0]], a[1..], PairsToSentinel(b));
      assert a == [a[0]] + a[1..];
    } else {
      assert a + b == b;
    }
  }

  lemma {:induction false} DropBackslashesAppend(a: string, b: string)
    ensures DropBackslashes(a + b) == DropBackslashes(a) + DropBackslashes(b)
    decreases |a|
  {
    if a == [] {
      assert a + b == b;
    } else {
      assert (a + b)[1..] == a[1..] + b;
      DropBackslashesAppend(a[1..], b);
    }
  }

  lemma {:induction false} DropBackslashesNone(s: string)
    requires '\\' !in s
    ensures DropBackslashes(s) == s
    decreases |s|
  {
    if s != [] {
      DropBackslashesNone(s[1..]);
    }
  }

  /** A value with no backslash and no `@` is returned unchanged. */
  lemma UnescapePlain(s: string)
    requires '\\' !in s && '@' !in s
    ensures Unescape(s) == s
  {
    PairsToSentinelNoPairs(s);
    DropBackslashesNone(s);
    NoSentinelWithoutAt(s);
  }

  /** The first sentinel of `a + SENTINEL + b` is the one after `a` when `a` has no `@`. */
  lemma FirstSentinelAfter(a: string, b: string)
    requires '@' !in a
    ensures ReplaceFirst(a + SENTINEL + b, SENTINEL, "\\") == a + "\\" + b
  {
    var marked := a + SENTINEL + b;
    assert OccursAt(marked, SENTINEL, |a|) by {
      assert marked[|a|..|a| + |SENTINEL|] == SENTINEL;
    }
    forall j | 0 <= j < |a| ensures !OccursAt(marked, SENTINEL, j) {
      if j + |SENTINEL| <= |marked| {
        assert marked[j] == marked[j..j + |SENTINEL|][0];
        assert marked[j] == a[j];
      }
    }
    var i := IndexOf(marked, SENTINEL, 0);
    assert i == Some(|a|);
    assert marked[..|a|] == a;
    assert marked[|a| + |SENTINEL|..] == b;
  }

  /** With no backslash in `a` or `b`, the pair between them is the only one. */
  lemma MarkOnePair(a: string, b: string)
    requires '\\' !in a && '\\' !in b
    ensures PairsToSentinel(a + "\\\\" + b) == a + SENTINEL + b
  {
    var escaped := "\\\\" + b;
    AppendAssoc(a, "\\\\", b);
    PairsToSentinelAppend(a, escaped);
    assert escaped[..2] == "\\\\" && escaped[2..] == b;
    PairsToSentinelNoPairs(b);
    AppendAssoc(a, SENTINEL, b);
  }

  /** One escaped backslash between plain text becomes a single backslash. */
  lemma UnescapeOnePair(a: string, b: string)
    requires '\\' !in a && '@' !in a && '\\' !in b && '@' !in b
    ensures Unescape(a + "\\\\" + b) == a + "\\" + b
  {
    var marked := a + SENTINEL + b;
    MarkOnePair(a, b);
    assert DropBackslashes(marked) == marked by {
      DropBackslashesNone(a);
      DropBackslashesNone(b);
      DropBackslashesNone(SENTINEL);
      DropBackslashesAppend(a, SENTINEL);
      DropBackslashesAppend(a + SENTINEL, b);
    }
    FirstSentinelAfter(a, b);
  }

  /** Only the first escaped backslash is restored: a second one is left as the
      sentinel text. */
  lemma UnescapeSecondPairKeepsSentinel()
    ensures Unescape("\\\\\\\\") == "\\" + SENTINEL
  {
    var s := "\\\\\\\\";
    assert s[2..] == "\\\\";
    assert PairsToSentinel("\\\\") == SENTINEL by {
      assert "\\\\"[2..] == [];
    }
    assert PairsToSentinel(s) == SENTINEL + SENTINEL;
    DropBackslashesNone(SENTINEL + SENTINEL);
    var marked := SENTINEL + SENTINEL;
    assert IndexOf(marked, SENTINEL, 0) == Some(0) by {
      assert marked[0..|SENTINEL|] == SENTINEL;
    }
    assert marked[|SENTINEL|..] == SENTINEL;
  }

  /** Dropping backslashes adds no character. */
  lemma {:induction false} DropBackslashesKeepsOut(s: string, ch: char)
    requires ch !in s
    ensures ch !in DropBackslashes(s)
    decreases |s|
  {
    if s != [] {
      DropBackslashesKeepsOut(s[1..], ch);
    }
  }

  /** In a value with no backslash pair and no `@`, unescaping only drops the
      single backslashes. */
  lemma UnescapeSingleBackslashes(s: string)
    requires forall i :: 0 <= i < |s| - 1 ==> !(s[i] == '\\' && s[i + 1] == '\\')
    requires '@' !in s
    ensures Unescape(s) == DropBackslashes(s)
  {
    PairsToSentinelNoPairs(s);
    DropBackslashesKeepsOut(s, '@');
    NoSentinelWithoutAt(DropBackslashes(s));
  }

  /** For example, an escaped `]` loses its backslash: `\]` becomes `]`. */
  lemma UnescapeBracket()
    ensures Unescape("\\]") == "]"
  {
    UnescapeSingleBackslashes("\\]");
    assert DropBackslashes("\\]") == "]" by {
      assert "\\]"[1..] == "]";
      assert DropBackslashes("]") == "]" by {
        assert "]"[1..] == [];
      }
    }
  }

  // ---------------------------------------------------------------- tokens

  /** `nextToken`: one token from the front of the text, and what follows it. */
  function NextToken(copy: Copy, s: string): (r: Result<(Token, string), Thrown>)
    ensures r.Success? ==> |r.value.1| < |s|
    ensures r.Failure? ==> r.error == Raise(copy, INVALID_SGF)
    ensures s != [] && s[0] == '(' ==> r == Success((StartVariation, s[1..]))
    ensures s != [] && s[0] == ')' ==> r == Success((EndVariation, s[1..]))
    ensures s != [] && s[0] == ';' ==> r == Success((StartMove, s[1..]))
    ensures s == [] || !(IsStructural(s[0]) || IsLetter(s[0])) ==> r.Failure?
    ensures r.Success? && r.value.0.Property? ==>
      var key := r.value.0.key;
      0 < |key| <= |s| && key == s[..|key|] && (|key| == |s| || !IsLetter(s[|key|]))
  {
    if s == [] then
      Failure(Raise(copy, INVALID_SGF))
    else if s[0] == '(' then
      Success((StartVariation, s[1..]))
    else if s[0] == ')' then
      Success((EndVariation, s[1..]))
    else if s[0] == ';' then
      Success((StartMove, s[1..]))
    else
      ReadProperty(copy, s)
  }

  /** The `default` branch of `nextToken`: a letter key, then a bracketed value. */
  function ReadProperty(copy: Copy, s: string): (r: Result<(Token, string), Thrown>)
    ensures r.Success? ==> |r.value.1| < |s|
    ensures r.Failure? ==> r.error == Raise(copy, INVALID_SGF)
    ensures s == [] || !IsLetter(s[0]) ==> r.Failure?
    ensures r.Success? <==>
      var rest := Trim(s[LetterRun(s)..]);
      LetterRun(s) > 0 && rest != [] && rest[0] == '[' && exists j :: ClosesAt(rest, j)
    ensures r.Success? ==> r.value.0.Property?
    ensures r.Success? ==>
      var key := r.value.0.key;
      0 < |key| <= |s| && key == s[..|key|] && (|key| == |s| || !IsLetter(s[|key|]))
    ensures r.Success? ==> r.value.1 == [] || !IsWhitespace(r.value.1[|r.value.1| - 1])
  {
    LetterRunSpec(s);
    var n := LetterRun(s);
    if n == 0 then
      Failure(Raise(copy, INVALID_SGF))
    else
      var rest := Trim(s[n..]);
      var close := FindClose(rest, 0);
      if rest == [] || rest[0] != '[' || close.None? then
        Failure(Raise(copy, INVALID_SGF))
      else
        var i := close.value;
        TrimEndSpec(TrimStart(s[n..]));
        Success((Property(s[..n], Unescape(rest[1..i + 1])), rest[i + 2..]))
  }

  /** A value whose only `]` is escaped is never closed: `B[a\]` fails. */
  lemma UnclosedValueFails(copy: Copy)
    ensures NextToken(copy, "B[a\\]") == Failure(Raise(copy, INVALID_SGF))
  {
    var s := "B[a\\]";
    assert LetterRun(s) == 1 by {
      assert s[1..] == "[a\\]";
    }
    TrimStartNoOp(s[1..]);
    assert Trim(s[1..]) == s[1..];
    forall j ensures !ClosesAt(s[1..], j) {
    }
  }

  /** `tokens` followed by the tokens of a successful lexing. */
  function Prepend(tokens: seq<Token>, r: Result<seq<Token>, Thrown>): Result<seq<Token>, Thrown> {
    if r.Failure? then r else Success(tokens + r.value)
  }

  lemma PrependPrepend(a: seq<Token>, b: seq<Token>, r: Result<seq<Token>, Thrown>)
    ensures Prepend(a, Prepend(b, r)) == Prepend(a + b, r)
  {
    if r.Success? {
      assert a + (b + r.value) == (a + b) + r.value;
    }
  }

  /** `tokenize` as a value: trim the front, take a token, repeat until nothing is left. */
  function Lex(copy: Copy, s: string): (r: Result<seq<Token>, Thrown>)
    ensures r.Failure? ==> r.error == Raise(copy, INVALID_SGF)
    decreases |s|
  {
    if s == [] then
      Success([])
    else
      var step := NextToken(copy, TrimStart(s));
      if step.Failure? then
        Failure(step.error)
      else
        assert |step.value.1| < |TrimStart(s)| <= |s|;
        Prepend([step.value.0], Lex(copy, step.value.1))
  }

  /** `tokenize`: the source's loop that pushes one token per turn. */
  method Tokenize(copy: Copy, raw: string) returns (r: Result<seq<Token>, Thrown>)
    ensures r == Lex(copy, raw)
  {
    var tokens: seq<Token> := [];
    var remaining := raw;
    assert Prepend([], Lex(copy, raw)) == Lex(copy, raw) by {
      var whole := Lex(copy, raw);
      if whole.Success? {
        assert [] + whole.value == whole.value;
      }
    }
    while remaining != []
      invariant Lex(copy, raw) == Prepend(tokens, Lex(copy, remaining))
      decreases |remaining|
    {
      var next := NextToken(copy, TrimStart(remaining));
      if next.Failure? {
        return Failure(next.error);
      }
      var (token, rest) := next.value;
      PrependPrepend(tokens, [token], Lex(copy, rest));
      tokens := tokens + [token];
      remaining := rest;
    }
    assert tokens + [] == tokens;
    return Success(tokens);
  }

  /** White space after the last token is an error: the trimmed text is empty. */
  lemma TrailingWhitespaceFails(copy: Copy, s: string)
    requires s != [] && forall i :: 0 <= i < |s| ==> IsWhitespace(s[i])
    ensures Lex(copy, s) == Failure(Raise(copy, INVALID_SGF))
  {
    TrimStartSpec(s);
    assert TrimStart(s) == [];
  }

  /** Reading a property sees only the key and the trimmed text after it. */
  lemma ReadPropertyAfterTrim(copy: Copy, s: string, t: string)
    requires LetterRun(s) == LetterRun(t) && s[..LetterRun(s)] == t[..LetterRun(t)]
    requires Trim(s[LetterRun(s)..]) == Trim(t[LetterRun(t)..])
    ensures ReadProperty(copy, s) == ReadProperty(copy, t)
  {
  }

  /** Lexing text that starts with `(`, `)` or `;` takes that token first. */
  lemma LexStructural(copy: Copy, s: string)
    requires s != [] && IsStructural(s[0])
    ensures Lex(copy, s) == Prepend([NextToken(copy, s).value.0], Lex(copy, s[1..]))
  {
    TrimStartNoOp(s);
  }

  /** `B[aa]) ` and `B[aa])` read the same property and leave `)`. */
  lemma PropertyAbsorbsTrailingSpace(copy: Copy)
    ensures ReadProperty(copy, "B[aa]) ") == ReadProperty(copy, "B[aa])")
  {
    var s, t := "B[aa]) ", "B[aa])";
    assert s[1..] == "[aa]) " && t[1..] == "[aa])";
    TrimStartNoOp("[aa]) ");
    TrimStartNoOp("[aa])");
    assert "[aa]) "[..5] == "[aa])";
    ReadPropertyAfterTrim(copy, s, t);
  }

  /** Two texts whose first tokens and remainders agree lex alike. */
  lemma LexSameFirstToken(copy: Copy, s: string, t: string)
    requires s != [] && t != [] && NextToken(copy, TrimStart(s)) == NextToken(copy, TrimStart(t))
    ensures Lex(copy, s) == Lex(copy, t)
  {
  }

  /** White space after the last `)` is absorbed once a property has been read,
      because `trim` on the text after the key trims the end of the whole input:
      `(;B[aa]) ` lexes like `(;B[aa])`. */
  lemma TrailingWhitespaceAbsorbed(copy: Copy)
    ensures Lex(copy, "(;B[aa]) ") == Lex(copy, "(;B[aa])")
    ensures Lex(copy, "(;B[aa]) ") == Success([StartVariation, StartMove, Property("B", "aa"), EndVariation])
  {
    assert Lex(copy, "B[aa]) ") == Lex(copy, "B[aa])") by {
      TrimStartNoOp("B[aa]) ");
      TrimStartNoOp("B[aa])");
      PropertyAbsorbsTrailingSpace(copy);
      LexSameFirstToken(copy, "B[aa]) ", "B[aa])");
    }
    assert Lex(copy, ";B[aa]) ") == Lex(copy, ";B[aa])") by {
      var s, t := ";B[aa]) ", ";B[aa])";
      LexStructural(copy, s);
      LexStructural(copy, t);
      assert s[1..] == "B[aa]) " && t[1..] == "B[aa])";
    }
    assert Lex(copy, "(;B[aa]) ") == Lex(copy, "(;B[aa])") by {
      var s, t := "(;B[aa]) ", "(;B[aa])";
      LexStructural(copy, s);
      LexStructural(copy, t);
      assert s[1..] == ";B[aa]) " && t[1..] == ";B[aa])";
    }
    TokenizeExample(copy);
  }

  /** A second bracketed value for the same key is not accepted. */
  lemma SecondValueFails(copy: Copy, v: string, more: string)
    ensures NextToken(copy, "[" + v + "]" + more).Failure?
  {
  }

  /** The two copies of the lexer return the same tokens and fail on the same
      texts (each with its own form of `Invalid SGF`, by the contract of `Lex`). */
  lemma NextTokenCopies(s: string)
    ensures NextToken(SgfJs, s).Success? <==> NextToken(NewJs, s).Success?
    ensures NextToken(SgfJs, s).Success? ==> NextToken(SgfJs, s).value == NextToken(NewJs, s).value
  {
    if s != [] && IsLetter(s[0]) {
      NextTokenOfLetter(SgfJs, s);
      NextTokenOfLetter(NewJs, s);
    }
  }

  lemma {:induction false} CopiesLexAlike(s: string)
    ensures Lex(SgfJs, s).Success? <==> Lex(NewJs, s).Success?
    ensures Lex(SgfJs, s).Success? ==> Lex(SgfJs, s).value == Lex(NewJs, s).value
    decreases |s|
  {
    if s != [] {
      var a := NextToken(SgfJs, TrimStart(s));
      NextTokenCopies(TrimStart(s));
      if a.Success? {
        CopiesLexAlike(a.value.1);
      }
    }
  }

  // ------------------------------------------------------ writing tokens

  /** Escape every `]` of a value with a backslash. */
  function Escape(v: string): string {
    if v == [] then []
    else if v[0] == ']' then "\\]" + Escape(v[1..])
    else [v[0]] + Escape(v[1..])
  }

  /** A token `Render` can write so that `nextToken` reads it back: a non-empty
      letter key, and a value without backslash or `@`. */
  predicate Writable(t: Token) {
    t.Property? ==>
      && |t.key| > 0 && (forall i :: 0 <= i < |t.key| ==> IsLetter(t.key[i]))
      && '\\' !in t.value && '@' !in t.value
  }

  function RenderToken(t: Token): (s: string)
    requires Writable(t)
    ensures |s| > 0 && !IsWhitespace(s[0]) && !IsWhitespace(s[|s| - 1])
  {
    match t
    case StartVariation => "("
    case EndVariation => ")"
    case StartMove => ";"
    case Property(k, v) =>
      var s := k + "[" + Escape(v) + "]";
      assert s[|s| - 1] == ']';
      if k == [] then s else assert s[0] == k[0]; s
  }

  /** SGF text for a token sequence, with no white space in between. */
  function Render(ts: seq<Token>): (s: string)
    requires forall i :: 0 <= i < |ts| ==> Writable(ts[i])
    ensures s == [] <==> ts == []
    ensures s == [] || (!IsWhitespace(s[0]) && !IsWhitespace(s[|s| - 1]))
  {
    if ts == [] then [] else RenderToken(ts[0]) + Render(ts[1..])
  }

  /** `Escape` adds backslashes and nothing else: no `@` appears. */
  lemma {:induction false} EscapeNoAt(v: string)
    requires '@' !in v
    ensures '@' !in Escape(v)
    decreases |v|
  {
    if v != [] {
      EscapeNoAt(v[1..]);
    }
  }

  /** In an escaped text every backslash is followed by `]`. */
  lemma {:induction false} EscapeBackslashes(v: string)
    requires '\\' !in v
    ensures forall i :: 0 <= i < |Escape(v)| && Escape(v)[i] == '\\' ==>
      i + 1 < |Escape(v)| && Escape(v)[i + 1] == ']'
    decreases |v|
  {
    if v != [] {
      EscapeBackslashes(v[1..]);
      var tail := Escape(v[1..]);
      if v[0] == ']' {
        assert Escape(v) == "\\]" + tail;
      } else {
        assert Escape(v) == [v[0]] + tail;
      }
    }
  }

  /** Dropping the backslashes of an escaped text gives the text back. */
  lemma {:induction false} EscapeDrop(v: string)
    requires '\\' !in v
    ensures DropBackslashes(Escape(v)) == v
    decreases |v|
  {
    if v != [] {
      EscapeDrop(v[1..]);
      var tail := Escape(v[1..]);
      if v[0] == ']' {
        assert Escape(v) == "\\]" + tail;
        assert ("\\]" + tail)[1..] == "]" + tail;
        assert ("]" + tail)[1..] == tail;
      } else {
        assert ([v[0]] + tail)[1..] == tail;
      }
    }
  }

  /** The value of an escaped text comes back out of `Unescape`. */
  lemma UnescapeEscape(v: string)
    requires '\\' !in v && '@' !in v
    ensures Unescape(Escape(v)) == v
  {
    var e := Escape(v);
    EscapeBackslashes(v);
    PairsToSentinelNoPairs(e);
    EscapeDrop(v);
    NoSentinelWithoutAt(v);
  }

  /** Searching from the last character of `p`, the first unescaped `]` is the
      one written after the escaped value. */
  lemma {:induction false} FindCloseAfterEscape(p: string, v: string, more: string)
    requires |p| > 0 && p[|p| - 1] != '\\'
    requires '\\' !in v
    ensures FindClose(p + Escape(v) + "]" + more, |p| - 1) == Some(|p| - 1 + |Escape(v)|)
    decreases |v|
  {
    var s := p + Escape(v) + "]" + more;
    if v == [] {
      assert s[|p|] == ']';
      assert ClosesAt(s, |p| - 1);
    } else if v[0] == ']' {
      var p' := p + "\\]";
      AppendAssoc(p, "\\]", Escape(v[1..]));
      assert s[|p|] == '\\';
      assert !ClosesAt(s, |p| - 1) && !ClosesAt(s, |p|);
      FindCloseAfterEscape(p', v[1..], more);
    } else {
      var p' := p + [v[0]];
      AppendAssoc(p, [v[0]], Escape(v[1..]));
      assert s[|p|] == v[0];
      assert !ClosesAt(s, |p| - 1);
      FindCloseAfterEscape(p', v[1..], more);
    }
  }

  /** A key of `|k|` letters followed by `[`, a value text, the `]` that
      closes it and more text reads as one property. */
  lemma ReadPropertyText(copy: Copy, k: string, tail: string, i: nat)
    requires 0 < |k| && LetterRun(k + tail) == |k|
    requires tail != [] && tail[0] == '[' && Trim(tail) == tail
    requires i + 2 <= |tail| && FindClose(tail, 0) == Some(i)
    ensures ReadProperty(copy, k + tail) == Success((Property(k, Unescape(tail[1..i + 1])), tail[i + 2..]))
  {
    var s := k + tail;
    assert s[|k|..] == tail && s[..|k|] == k;
  }

  /** `nextToken` on text that starts with a letter is the property branch. */
  lemma NextTokenOfLetter(copy: Copy, s: string)
    requires s != [] && IsLetter(s[0])
    ensures NextToken(copy, s) == ReadProperty(copy, s)
  {
  }

  /** The pieces of a letter key and a bracketed value `[e]` followed by more text. */
  lemma BracketedPieces(k: string, e: string, more: string)
    requires forall i :: 0 <= i < |k| ==> IsLetter(k[i])
    requires more == [] || !IsWhitespace(more[|more| - 1])
    ensures var tail := "[" + e + "]" + more;
      && tail[0] == '[' && Trim(tail) == tail && LetterRun(k + tail) == |k|
      && tail[1..|e| + 1] == e && tail[|e| + 2..] == more
  {
    var tail := "[" + e + "]" + more;
    if more == [] {
      assert tail[|tail| - 1] == ']';
    } else {
      assert tail[|tail| - 1] == more[|more| - 1];
    }
    TrimStartNoOp(tail);
    TrimEndNoOp(tail);
    LetterRunOfLetters(k, tail);
  }

  /** A written property reads back as the same key and value. */
  lemma PropertyReadsBack(copy: Copy, k: string, v: string, more: string)
    requires |k| > 0 && forall i :: 0 <= i < |k| ==> IsLetter(k[i])
    requires '\\' !in v && '@' !in v
    requires more == [] || !IsWhitespace(more[|more| - 1])
    ensures NextToken(copy, k + ("[" + Escape(v) + "]" + more)) == Success((Property(k, v), more))
  {
    var e := Escape(v);
    var tail := "[" + e + "]" + more;
    assert (k + tail)[0] == k[0];
    NextTokenOfLetter(copy, k + tail);
    BracketedPieces(k, e, more);
    FindCloseAfterEscape("[", v, more);
    ReadPropertyText(copy, k, tail, |e|);
    UnescapeEscape(v);
  }

  /** `nextToken` reads a written token back, leaving the text after it. */
  lemma NextTokenRender(copy: Copy, t: Token, more: string)
    requires Writable(t)
    requires more == [] || !IsWhitespace(more[|more| - 1])
    ensures NextToken(copy, RenderToken(t) + more) == Success((t, more))
  {
    if t.Property? {
      assert RenderToken(t) + more == t.key + ("[" + Escape(t.value) + "]" + more);
      PropertyReadsBack(copy, t.key, t.value, more);
    }
  }

  lemma {:induction false} LetterRunOfLetters(k: string, rest: string)
    requires forall i :: 0 <= i < |k| ==> IsLetter(k[i])
    requires rest != [] && !IsLetter(rest[0])
    ensures LetterRun(k + rest) == |k|
    decreases |k|
  {
    if k == [] {
      assert k + rest == rest;
    } else {
      assert (k + rest)[1..] == k[1..] + rest;
      LetterRunOfLetters(k[1..], rest);
    }
  }

  /** Lexing the written form of writable tokens gives the tokens back. */
  lemma {:induction false} LexRender(copy: Copy, ts: seq<Token>)
    requires forall i :: 0 <= i < |ts| ==> Writable(ts[i])
    ensures Lex(copy, Render(ts)) == Success(ts)
    decreases |ts|
  {
    if ts != [] {
      var s := Render(ts);
      var more := Render(ts[1..]);
      assert s == RenderToken(ts[0]) + more;
      TrimStartNoOp(s);
      NextTokenRender(copy, ts[0], more);
      LexRender(copy, ts[1..]);
      assert [ts[0]] + ts[1..] == ts;
    }
  }

  /** The tokenizer example: `(;B[aa])` gives `(`, `;`, `[B, aa]`, `)`. */
  lemma TokenizeExample(copy: Copy)
    ensures Lex(copy, "(;B[aa])") == Success([StartVariation, StartMove, Property("B", "aa"), EndVariation])
  {
    var ts := [StartVariation, StartMove, Property("B", "aa"), EndVariation];
    assert Escape("aa") == "aa" by {
      assert "aa"[1..] == "a";
      assert "a"[1..] == [];
    }
    assert Render(ts) == "(;B[aa])" by {
      assert ts[1..] == [StartMove, Property("B", "aa"), EndVariation];
      assert ts[1..][1..] == [Property("B", "aa"), EndVariation];
      assert ts[1..][1..][1..] == [EndVariation];
      assert ts[1..][1..][1..][1..] == [];
    }
    LexRender(copy, ts);
  }
}

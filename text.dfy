/**
  The JavaScript string built-ins that the modelled code relies on, over `string` (= `seq<char>`):
  case mapping, white-space classes, `trim`, `indexOf`, `lastIndexOf`, `split`, `join`, number
  formatting and the `/\s+/g` collapse. Each is given a contract that characterises it, so that the
  modules above reason about these contracts rather than about the recursion.
*/
module Text {

  /** JavaScript's `\s` class, which is also the set of characters `trim` removes. */
  predicate IsSpace(c: char) {
    c == ' ' || c == '\t' || c == '\n' || c == '\U{000B}' || c == '\U{000C}' || c == '\r'
    || c == '\U{00A0}' || c == '\U{1680}' || ('\U{2000}' <= c <= '\U{200A}')
    || c == '\U{2028}' || c == '\U{2029}' || c == '\U{202F}' || c == '\U{205F}'
    || c == '\U{3000}' || c == '\U{FEFF}'
  }

  /** JavaScript's `\d`: an ASCII digit. */
  predicate IsDigit(c: char) {
    '0' <= c <= '9'
  }

  /** JavaScript's `\w`: an ASCII letter, an ASCII digit or `_`. */
  predicate IsWordChar(c: char) {
    'a' <= c <= 'z' || 'A' <= c <= 'Z' || IsDigit(c) || c == '_'
  }

  function LowerChar(c: char): char {
    if 'A' <= c <= 'Z' then (c as int + 32) as char else c
  }

  function UpperChar(c: char): char {
    if 'a' <= c <= 'z' then (c as int - 32) as char else c
  }

  /** `toLowerCase`, mapping the ASCII letters. */
  function ToLower(s: string): (r: string)
    ensures |r| == |s|
    ensures forall i :: 0 <= i < |s| ==> r[i] == LowerChar(s[i])
  {
    seq(|s|, i requires 0 <= i < |s| => LowerChar(s[i]))
  }

  predicate AllSpace(s: string) {
    forall i :: 0 <= i < |s| ==> IsSpace(s[i])
  }

  /** `trimStart`: the longest suffix that does not begin with white space. */
  function TrimStart(s: string): (r: string)
    ensures |r| <= |s| && r == s[|s| - |r|..]
    ensures r == [] || !IsSpace(r[0])
    ensures AllSpace(s[..|s| - |r|])
    decreases |s|
  {
    if s != [] && IsSpace(s[0]) then TrimStart(s[1..]) else s
  }

  /** `trimEnd`: the longest prefix that does not end with white space. */
  function TrimEnd(s: string): (r: string)
    ensures |r| <= |s| && r == s[..|r|]
    ensures r == [] || !IsSpace(r[|r| - 1])
    ensures AllSpace(s[|r|..])
    decreases |s|
  {
    if s != [] && IsSpace(s[|s| - 1]) then
      var r := TrimEnd(s[..|s| - 1]);
      assert s[|r|..] == s[..|s| - 1][|r|..] + [s[|s| - 1]];
      r
    else s
  }

  /** The number of white-space characters `trim` removes at the front of `s`. */
  function Lead(s: string): (n: nat)
    ensures n <= |s|
    decreases |s|
  {
    if s != [] && IsSpace(s[0]) then 1 + Lead(s[1..]) else 0
  }

  /** `trim`: `s` without its leading and trailing white space. */
  function Trim(s: string): (r: string)
    ensures |r| <= |s|
    ensures r == [] || (!IsSpace(r[0]) && !IsSpace(r[|r| - 1]))
    decreases |s|
  {
    if s != [] && IsSpace(s[0]) then Trim(s[1..])
    else if s != [] && IsSpace(s[|s| - 1]) then Trim(s[..|s| - 1])
    else s
  }

  /** Trimming both ends at once is trimming the start and then the end. */
  lemma {:induction false} TrimBothEnds(s: string)
    ensures Trim(s) == TrimEnd(TrimStart(s))
    decreases |s|
  {
    if s != [] && IsSpace(s[0]) {
      TrimBothEnds(s[1..]);
    } else if s != [] && IsSpace(s[|s| - 1]) {
      var init := s[..|s| - 1];
      TrimBothEnds(init);
      TrimEndStep(s);
      TrimStartNone(init);
    }
  }

  /** With white space at the end only, `trim` and `trimEnd` each drop the last character first. */
  lemma TrimEndStep(s: string)
    requires s != [] && !IsSpace(s[0]) && IsSpace(s[|s| - 1])
    ensures Trim(s) == Trim(s[..|s| - 1])
    ensures TrimEnd(TrimStart(s)) == TrimEnd(s[..|s| - 1])
  {
    assert TrimStart(s) == s;
  }

  /** A text that does not begin with white space is its own `trimStart`. */
  lemma TrimStartNone(s: string)
    requires s == [] || !IsSpace(s[0])
    ensures TrimStart(s) == s
  {
  }

  /** Where the result of `trim` stands in `s`: right after the `Lead(s)` white-space characters. */
  lemma {:induction false} TrimSlice(s: string)
    ensures Lead(s) + |Trim(s)| <= |s|
    ensures Trim(s) == s[Lead(s)..Lead(s) + |Trim(s)|]
    decreases |s|
  {
    if s != [] && IsSpace(s[0]) {
      TrimSlice(s[1..]);
      TrimSliceFront(s);
    } else if s != [] && IsSpace(s[|s| - 1]) {
      TrimSlice(s[..|s| - 1]);
      TrimSliceBack(s);
    }
  }

  lemma TrimSliceFront(s: string)
    requires s != [] && IsSpace(s[0])
    requires Lead(s[1..]) + |Trim(s[1..])| <= |s| - 1
    requires Trim(s[1..]) == s[1..][Lead(s[1..])..Lead(s[1..]) + |Trim(s[1..])|]
    ensures Lead(s) + |Trim(s)| <= |s|
    ensures Trim(s) == s[Lead(s)..Lead(s) + |Trim(s)|]
  {
    var t := s[1..];
    var l, n := Lead(t), |Trim(t)|;
    assert Lead(s) == l + 1;
    assert Trim(s) == Trim(t);
    SliceOfTail(s, l, n);
  }

  lemma SliceOfTail(s: string, l: nat, n: nat)
    requires s != [] && l + n <= |s| - 1
    ensures s[1..][l..l + n] == s[l + 1..l + 1 + n]
  {
  }

  lemma TrimSliceBack(s: string)
    requires s != [] && !IsSpace(s[0]) && IsSpace(s[|s| - 1])
    requires Lead(s[..|s| - 1]) + |Trim(s[..|s| - 1])| <= |s| - 1
    requires Trim(s[..|s| - 1]) == s[..|s| - 1][Lead(s[..|s| - 1])..Lead(s[..|s| - 1]) + |Trim(s[..|s| - 1])|]
    ensures Lead(s) + |Trim(s)| <= |s|
    ensures Trim(s) == s[Lead(s)..Lead(s) + |Trim(s)|]
  {
    var init := s[..|s| - 1];
    var n := |Trim(init)|;
    assert Lead(init) == 0 by {
      if init != [] {
        assert init[0] == s[0];
      }
    }
    assert init[..n] == s[..n];
  }

  /** A text with no white space at either end is its own trim. */
  lemma TrimOfTrimmed(s: string)
    requires s == [] || (!IsSpace(s[0]) && !IsSpace(s[|s| - 1]))
    ensures Trim(s) == s
  {
  }

  lemma {:induction false} TrimStartSpaces(w: string, x: string)
    requires AllSpace(w)
    ensures TrimStart(w + x) == TrimStart(x)
    decreases |w|
  {
    if w != [] {
      assert (w + x)[0] == w[0] && IsSpace(w[0]);
      assert (w + x)[1..] == w[1..] + x;
      assert AllSpace(w[1..]) by {
        forall i | 0 <= i < |w[1..]| ensures IsSpace(w[1..][i]) { assert w[1..][i] == w[i + 1]; }
      }
      TrimStartSpaces(w[1..], x);
      assert TrimStart(w + x) == TrimStart((w + x)[1..]);
      assert TrimStart(w[1..] + x) == TrimStart(x);
    } else {
      assert w + x == x;
    }
  }

  lemma {:induction false} TrimStartConcat(s: string, t: string)
    requires TrimStart(s) != []
    ensures TrimStart(s + t) == TrimStart(s) + t
    decreases |s|
  {
    assert (s + t)[0] == s[0];
    if IsSpace(s[0]) {
      assert TrimStart(s) == TrimStart(s[1..]);
      assert (s + t)[1..] == s[1..] + t;
      TrimStartConcat(s[1..], t);
      assert TrimStart(s + t) == TrimStart(s[1..] + t);
    }
  }

  lemma {:induction false} TrimEndConcat(s: string, t: string)
    requires TrimEnd(t) != []
    ensures TrimEnd(s + t) == s + TrimEnd(t)
    decreases |t|
  {
    if IsSpace(t[|t| - 1]) {
      assert (s + t)[..|s + t| - 1] == s + t[..|t| - 1];
      TrimEndConcat(s, t[..|t| - 1]);
    } else {
      assert (s + t)[|s + t| - 1] == t[|t| - 1];
    }
  }

  lemma {:induction false} TrimEndSpaces(x: string, w: string)
    requires AllSpace(w)
    ensures TrimEnd(x + w) == TrimEnd(x)
    decreases |w|
  {
    if w != [] {
      assert (x + w)[|x + w| - 1] == w[|w| - 1] && IsSpace(w[|w| - 1]);
      assert (x + w)[..|x + w| - 1] == x + w[..|w| - 1];
      var init := w[..|w| - 1];
      assert AllSpace(init) by {
        forall i | 0 <= i < |init| ensures IsSpace(init[i]) { assert init[i] == w[i]; }
      }
      TrimEndSpaces(x, w[..|w| - 1]);
    } else {
      assert x + w == x;
    }
  }

  /** White space added around a text does not survive `trim`. */
  lemma TrimPadded(w1: string, s: string, w2: string)
    requires AllSpace(w1) && AllSpace(w2)
    ensures Trim(w1 + s + w2) == Trim(s)
  {
    TrimBothEnds(w1 + s + w2);
    TrimBothEnds(s);
    TrimEndStartPadded(w1, s, w2);
  }

  lemma TrimEndStartPadded(w1: string, s: string, w2: string)
    requires AllSpace(w1) && AllSpace(w2)
    ensures TrimEnd(TrimStart(w1 + s + w2)) == TrimEnd(TrimStart(s))
  {
    assert w1 + s + w2 == w1 + (s + w2);
    TrimStartSpaces(w1, s + w2);
    assert TrimStart(w1 + s + w2) == TrimStart(s + w2);
    if TrimStart(s) == [] {
      assert AllSpace(s + w2) by {
        assert AllSpace(s[..|s|]);
        assert s[..|s|] == s;
      }
      TrimStartSpaces(s + w2, []);
      assert s + w2 + [] == s + w2;
      assert TrimStart(s + w2) == [];
    } else {
      TrimStartConcat(s, w2);
      TrimEndSpaces(TrimStart(s), w2);
    }
  }

  /** `needle` occurs in `s` at offset `i`. */
  predicate OccursAt(s: string, needle: string, i: nat) {
    i + |needle| <= |s| && s[i..i + |needle|] == needle
  }

  /**
    `s.indexOf(needle, from)`: the leftmost occurrence at or after `from`, or -1.
    (JavaScript clamps a `from` beyond the end; the two differ only for an empty needle there.)
  */
  function IndexOf(s: string, needle: string, from: nat): (r: int)
    ensures r == -1 || (from <= r && OccursAt(s, needle, r))
    ensures forall i :: from <= i && (r == -1 || i < r) ==> !OccursAt(s, needle, i)
    decreases |s| - from
  {
    if from + |needle| > |s| then -1
    else if s[from..from + |needle|] == needle then from
    else IndexOf(s, needle, from + 1)
  }

  /** `s.includes(needle)`: `needle` occurs somewhere in `s`. */
  predicate Contains(s: string, needle: string)
    decreases |s|
  {
    OccursAt(s, needle, 0) || (s != [] && Contains(s[1..], needle))
  }

  /** `includes` holds exactly when there is an occurrence, which is when `indexOf` finds one. */
  lemma {:induction false} ContainsIff(s: string, needle: string)
    ensures Contains(s, needle) <==> exists i: nat :: OccursAt(s, needle, i)
    ensures Contains(s, needle) <==> IndexOf(s, needle, 0) >= 0
    decreases |s|
  {
    if s != [] {
      ContainsIff(s[1..], needle);
      forall i: nat
        ensures OccursAt(s[1..], needle, i) <==> OccursAt(s, needle, i + 1)
      {
        if i + 1 + |needle| <= |s| {
          assert s[1..][i..i + |needle|] == s[i + 1..i + 1 + |needle|];
        }
      }
      if OccursAt(s, needle, 0) {
      } else if exists i: nat :: OccursAt(s, needle, i) {
        var i: nat :| OccursAt(s, needle, i);
        assert OccursAt(s[1..], needle, i - 1);
      }
    }
    if exists i: nat :: OccursAt(s, needle, i) {
      var i: nat :| OccursAt(s, needle, i);
      assert IndexOf(s, needle, 0) >= 0;
    }
  }

  /** `s.startsWith(p)`. */
  predicate StartsWith(s: string, p: string) {
    |p| <= |s| && s[..|p|] == p
  }

  /** `s.endsWith(p)`. */
  predicate EndsWith(s: string, p: string) {
    |p| <= |s| && s[|s| - |p|..] == p
  }

  /** `s.lastIndexOf(c)` for a one-character needle. */
  function LastIndexOf(s: string, c: char): (r: int)
    ensures -1 <= r < |s|
    ensures r >= 0 ==> s[r] == c
    ensures forall i :: r < i < |s| ==> s[i] != c
    decreases |s|
  {
    if s == [] then -1
    else if s[|s| - 1] == c then |s| - 1
    else LastIndexOf(s[..|s| - 1], c)
  }

  /** The offset of the first character satisfying `p`, or `|s|` when there is none. */
  function FirstIndex(s: string, p: char -> bool): (i: nat)
    ensures i <= |s|
    ensures i < |s| ==> p(s[i])
    ensures forall j :: 0 <= j < i ==> !p(s[j])
    decreases |s|
  {
    if s == [] then 0
    else if p(s[0]) then 0
    else 1 + FirstIndex(s[1..], p)
  }

  /** One piece of a split, with the offset at which it stands in the split text. */
  datatype Piece = Piece(text: string, start: nat)

  function Shift(ps: seq<Piece>, d: nat): (r: seq<Piece>)
    ensures |r| == |ps|
    ensures forall k :: 0 <= k < |ps| ==> r[k] == Piece(ps[k].text, ps[k].start + d)
  {
    seq(|ps|, k requires 0 <= k < |ps| => Piece(ps[k].text, ps[k].start + d))
  }

  /** The pieces of `s.split(sep)` where `sep` is every character satisfying `isSep`. */
  function Pieces(s: string, isSep: char -> bool): (r: seq<Piece>)
    ensures |r| >= 1
    decreases |s|
  {
    var i := FirstIndex(s, isSep);
    if i == |s| then [Piece(s, 0)]
    else [Piece(s[..i], 0)] + Shift(Pieces(s[i + 1..], isSep), i + 1)
  }

  function Texts(ps: seq<Piece>): (r: seq<string>)
    ensures |r| == |ps|
    ensures forall k :: 0 <= k < |ps| ==> r[k] == ps[k].text
  {
    seq(|ps|, k requires 0 <= k < |ps| => ps[k].text)
  }

  /** `s.split(sep)` for a one-character separator or a character class. */
  function Split(s: string, isSep: char -> bool): seq<string> {
    Texts(Pieces(s, isSep))
  }

  /** The piece `p` is the text found in `s` at its offset, and holds no separator. */
  ghost predicate PieceAt(s: string, p: Piece, isSep: char -> bool) {
    && p.start + |p.text| <= |s|
    && s[p.start..p.start + |p.text|] == p.text
    && forall j :: 0 <= j < |p.text| ==> !isSep(p.text[j])
  }

  /** A separator ends piece `p` of `s`, and the next piece starts right after it. */
  ghost predicate SeparatedFrom(s: string, p: Piece, next: Piece, isSep: char -> bool) {
    p.start + |p.text| < |s| && isSep(s[p.start + |p.text|]) && next.start == p.start + |p.text| + 1
  }

  /** Every piece stands at its offset, and consecutive pieces are one separator apart. */
  ghost predicate Laid(s: string, ps: seq<Piece>, isSep: char -> bool) {
    && (forall k :: 0 <= k < |ps| ==> PieceAt(s, ps[k], isSep))
    && (forall k :: 0 <= k < |ps| - 1 ==> SeparatedFrom(s, ps[k], ps[k + 1], isSep))
  }

  lemma ShiftLaid(s: string, d: nat, ps: seq<Piece>, isSep: char -> bool)
    requires d <= |s| && Laid(s[d..], ps, isSep)
    ensures Laid(s, Shift(ps, d), isSep)
  {
    var qs := Shift(ps, d);
    forall k | 0 <= k < |qs|
      ensures PieceAt(s, qs[k], isSep)
    {
      var p := ps[k];
      assert PieceAt(s[d..], p, isSep);
      assert s[d..][p.start..p.start + |p.text|] == s[d + p.start..d + p.start + |p.text|];
    }
    forall k | 0 <= k < |qs| - 1
      ensures SeparatedFrom(s, qs[k], qs[k + 1], isSep)
    {
      assert SeparatedFrom(s[d..], ps[k], ps[k + 1], isSep);
    }
  }

  lemma ConsLaid(s: string, p: Piece, tail: seq<Piece>, isSep: char -> bool)
    requires PieceAt(s, p, isSep) && Laid(s, tail, isSep)
    requires |tail| > 0 && SeparatedFrom(s, p, tail[0], isSep)
    ensures Laid(s, [p] + tail, isSep)
  {
    var ps := [p] + tail;
    forall k | 1 <= k < |ps|
      ensures PieceAt(s, ps[k], isSep)
    {
      assert ps[k] == tail[k - 1];
    }
    forall k | 1 <= k < |ps| - 1
      ensures SeparatedFrom(s, ps[k], ps[k + 1], isSep)
    {
      assert ps[k] == tail[k - 1] && ps[k + 1] == tail[k];
    }
  }

  lemma {:induction false} PiecesLaid(s: string, isSep: char -> bool)
    ensures Laid(s, Pieces(s, isSep), isSep)
    ensures Pieces(s, isSep)[0].start == 0
    ensures Last(Pieces(s, isSep)).start + |Last(Pieces(s, isSep)).text| == |s|
    decreases |s|
  {
    var i := FirstIndex(s, isSep);
    var ps := Pieces(s, isSep);
    if i == |s| {
      assert ps == [Piece(s, 0)];
      assert PieceAt(s, ps[0], isSep) by {
        assert s[0..|s|] == s;
      }
    } else {
      var rest := Pieces(s[i + 1..], isSep);
      PiecesLaid(s[i + 1..], isSep);
      ShiftLaid(s, i + 1, rest, isSep);
      var tail := Shift(rest, i + 1);
      var p := Piece(s[..i], 0);
      assert ps == [p] + tail;
      assert PieceAt(s, p, isSep) by {
        assert s[0..i] == s[..i];
      }
      ConsLaid(s, p, tail, isSep);
      assert Last(ps) == tail[|tail| - 1];
    }
  }

  function Last<T>(xs: seq<T>): T
    requires |xs| > 0
  {
    xs[|xs| - 1]
  }

  /** `parts.join(sep)`. */
  function Join(parts: seq<string>, sep: string): string
    decreases |parts|
  {
    if |parts| == 0 then []
    else if |parts| == 1 then parts[0]
    else parts[0] + sep + Join(parts[1..], sep)
  }

  /** Splitting on one character and joining with it again gives back the text. */
  lemma {:induction false} SplitJoin(s: string, isSep: char -> bool, sep: char)
    requires forall c :: isSep(c) <==> c == sep
    ensures Join(Split(s, isSep), [sep]) == s
    decreases |s|
  {
    var i := FirstIndex(s, isSep);
    if i < |s| {
      var rest := Pieces(s[i + 1..], isSep);
      SplitJoin(s[i + 1..], isSep, sep);
      assert Split(s, isSep) == [s[..i]] + Split(s[i + 1..], isSep);
      assert s == s[..i] + [sep] + s[i + 1..];
    }
  }

  function DigitChar(d: nat): char
    requires d < 10
  {
    ('0' as int + d) as char
  }

  /** `String(n)` for a non-negative integer: its decimal digits, most significant first. */
  function NatToString(n: nat): (r: string)
    ensures |r| >= 1
    ensures forall i :: 0 <= i < |r| ==> IsDigit(r[i])
    decreases n
  {
    if n < 10 then [DigitChar(n)] else NatToString(n / 10) + [DigitChar(n % 10)]
  }

  /** The number a string of decimal digits denotes. */
  function DigitsValue(s: string): nat
    requires forall i :: 0 <= i < |s| ==> IsDigit(s[i])
    decreases |s|
  {
    if s == [] then 0
    else
      assert IsDigit(s[|s| - 1]);
      DigitsValue(s[..|s| - 1]) * 10 + (s[|s| - 1] as int - '0' as int)
  }

  /** Reading back the decimal text of `n` gives `n`. */
  lemma {:induction false} NatToStringRoundTrip(n: nat)
    ensures DigitsValue(NatToString(n)) == n
    decreases n
  {
    if n >= 10 {
      NatToStringRoundTrip(n / 10);
      var s := NatToString(n);
      assert s[..|s| - 1] == NatToString(n / 10);
    }
  }

  /** The longest prefix of `s` made of digits. */
  function LeadingDigits(s: string): (r: string)
    ensures |r| <= |s| && r == s[..|r|]
    ensures forall i :: 0 <= i < |r| ==> IsDigit(r[i])
    ensures |r| == |s| || !IsDigit(s[|r|])
    decreases |s|
  {
    if s != [] && IsDigit(s[0]) then [s[0]] + LeadingDigits(s[1..]) else []
  }

  /** The number a numbered line starts with: the value of its leading digits. */
  function StepNumber(line: string): nat {
    DigitsValue(LeadingDigits(line))
  }

  /** The leading digits of a number's text followed by a non-digit are that text. */
  lemma {:induction false} LeadingDigitsOf(digits: string, rest: string)
    requires forall i :: 0 <= i < |digits| ==> IsDigit(digits[i])
    requires rest != [] && !IsDigit(rest[0])
    ensures LeadingDigits(digits + rest) == digits
    decreases |digits|
  {
    if digits == [] {
      assert digits + rest == rest;
    } else {
      assert (digits + rest)[1..] == digits[1..] + rest;
      LeadingDigitsOf(digits[1..], rest);
      assert digits == [digits[0]] + digits[1..];
    }
  }

  /** A line built from `NatToString(n)` and a dot carries the number `n`. */
  lemma NumberedLine(n: nat, rest: string)
    requires rest != [] && rest[0] == '.'
    ensures StepNumber(NatToString(n) + rest) == n
  {
    LeadingDigitsOf(NatToString(n), rest);
    NatToStringRoundTrip(n);
  }

  /** `s.replace(/\s+/g, ' ')`: every maximal run of white space becomes one space. */
  function CollapseSpaces(s: string): (r: string)
    ensures (r == []) == (s == [])
    ensures r != [] ==> (IsSpace(r[0]) <==> IsSpace(s[0]))
    ensures forall i :: 0 <= i < |r| && IsSpace(r[i]) ==> r[i] == ' '
    ensures forall i :: 0 <= i < |r| - 1 && IsSpace(r[i]) ==> !IsSpace(r[i + 1])
    decreases |s|
  {
    if s == [] then []
    else if IsSpace(s[0]) then [' '] + CollapseSpaces(TrimStart(s))
    else [s[0]] + CollapseSpaces(s[1..])
  }

  /** Collapsing twice is collapsing once. */
  lemma {:induction false} CollapseIdempotent(s: string)
    ensures CollapseSpaces(CollapseSpaces(s)) == CollapseSpaces(s)
    decreases |s|
  {
    var r := CollapseSpaces(s);
    if s == [] {
    } else if IsSpace(s[0]) {
      var t := TrimStart(s);
      CollapseIdempotent(t);
      var rt := CollapseSpaces(t);
      assert r == [' '] + rt;
      assert rt == [] || !IsSpace(rt[0]);
      assert r[1..] == rt;
      assert TrimStart(r) == TrimStart(r[1..]);
      assert TrimStart(r) == rt;
    } else {
      CollapseIdempotent(s[1..]);
      assert r[1..] == CollapseSpaces(s[1..]);
    }
  }

  /**
    One step of a left-to-right scan: a character that is not white space is copied, and a white
    space character opens a new run, written as one space, unless a run is already open.
  */
  function CollapseStep(r: string, c: char): string {
    if !IsSpace(c) then r + [c]
    else if r != [] && IsSpace(r[|r| - 1]) then r
    else r + [' ']
  }

  /** The collapse as a scan of the text from left to right, one character at a time. */
  function CollapseScan(s: string): string
    decreases |s|
  {
    if s == [] then [] else CollapseStep(CollapseScan(s[..|s| - 1]), s[|s| - 1])
  }

  /** The replacement of every maximal white-space run by one space is the left-to-right scan. */
  lemma {:induction false} CollapseIsScan(s: string)
    ensures CollapseSpaces(s) == CollapseScan(s)
    decreases |s|
  {
    if s != [] {
      var init, c := s[..|s| - 1], s[|s| - 1];
      CollapseIsScan(init);
      assert s == init + [c];
      CollapseSnoc(init, c);
    }
  }

  /** Appending a character to the text appends what one scan step adds to the collapsed text. */
  lemma {:induction false} CollapseSnoc(s: string, c: char)
    ensures CollapseSpaces(s + [c]) == CollapseStep(CollapseSpaces(s), c)
    decreases |s|
  {
    if s == [] {
      CollapseOne(c);
    } else if IsSpace(s[0]) {
      var rest := TrimStart(s);
      if rest == [] {
        CollapseSpacesSnoc(s, c);
      } else {
        CollapseSnoc(rest, c);
        CollapseRunSnoc(s, c);
      }
    } else {
      CollapseSnoc(s[1..], c);
      CollapseWordSnoc(s, c);
    }
  }

  lemma CollapseOne(c: char)
    ensures CollapseSpaces([c]) == CollapseStep([], c)
  {
    assert [c][1..] == [];
    if IsSpace(c) {
      assert TrimStart([c]) == TrimStart([c][1..]);
    }
  }

  /** A text of white space only, with one more character. */
  lemma {:induction false} CollapseSpacesSnoc(s: string, c: char)
    requires s != [] && IsSpace(s[0]) && TrimStart(s) == []
    ensures CollapseSpaces(s + [c]) == CollapseStep(CollapseSpaces(s), c)
  {
    CollapseRunOnly(s);
    RunAllSpace(s);
    CollapseAfterRun(s, c);
    StepAfterSpace(c);
  }

  /** A text of white space only collapses to one space. */
  lemma CollapseRunOnly(s: string)
    requires s != [] && IsSpace(s[0]) && TrimStart(s) == []
    ensures CollapseSpaces(s) == [' ']
  {
    CollapseLeading(s);
    assert [' '] + [] == [' '];
  }

  /** A text with nothing left once its leading white space is trimmed is white space only. */
  lemma RunAllSpace(s: string)
    requires TrimStart(s) == []
    ensures AllSpace(s)
  {
    assert s[..|s|] == s;
  }

  /** The scan step after a space: a space is absorbed, anything else is copied. */
  lemma StepAfterSpace(c: char)
    ensures CollapseStep([' '], c) == [' '] + CollapseSpaces(TrimStart([c]))
  {
    TrimStartOne(c);
    if IsSpace(c) {
      assert [' '] + [] == [' '];
    }
  }

  /** After a text of white space only, the collapse goes on with what follows it. */
  lemma CollapseAfterRun(s: string, c: char)
    requires s != [] && AllSpace(s)
    ensures CollapseSpaces(s + [c]) == [' '] + CollapseSpaces(TrimStart([c]))
  {
    assert (s + [c])[0] == s[0];
    CollapseLeading(s + [c]);
    TrimStartSpaces(s, [c]);
  }

  /** A text that opens with white space collapses to one space and the collapse of the rest. */
  lemma CollapseLeading(t: string)
    requires t != [] && IsSpace(t[0])
    ensures CollapseSpaces(t) == [' '] + CollapseSpaces(TrimStart(t))
  {
  }

  lemma TrimStartOne(c: char)
    ensures TrimStart([c]) == if IsSpace(c) then [] else [c]
    ensures CollapseSpaces(TrimStart([c])) == if IsSpace(c) then [] else [c]
  {
    assert [c][1..] == [];
    if !IsSpace(c) {
      assert CollapseSpaces([c]) == [c] + CollapseSpaces([c][1..]);
    }
  }

  /** A text that opens with a run of white space and goes on after it, with one more character. */
  lemma {:induction false} CollapseRunSnoc(s: string, c: char)
    requires s != [] && IsSpace(s[0]) && TrimStart(s) != []
    requires CollapseSpaces(TrimStart(s) + [c]) == CollapseStep(CollapseSpaces(TrimStart(s)), c)
    ensures CollapseSpaces(s + [c]) == CollapseStep(CollapseSpaces(s), c)
  {
    var rest := TrimStart(s);
    assert (s + [c])[0] == s[0];
    TrimStartConcat(s, [c]);
    assert CollapseSpaces(s + [c]) == [' '] + CollapseSpaces(rest + [c]);
    assert CollapseSpaces(s) == [' '] + CollapseSpaces(rest);
    StepCons(' ', CollapseSpaces(rest), c);
  }

  /** A text that opens with a character other than white space, with one more character. */
  lemma {:induction false} CollapseWordSnoc(s: string, c: char)
    requires s != [] && !IsSpace(s[0])
    requires CollapseSpaces(s[1..] + [c]) == CollapseStep(CollapseSpaces(s[1..]), c)
    ensures CollapseSpaces(s + [c]) == CollapseStep(CollapseSpaces(s), c)
  {
    var t := s + [c];
    assert t[0] == s[0] && t[1..] == s[1..] + [c];
    assert CollapseSpaces(t) == [s[0]] + CollapseSpaces(t[1..]);
    assert CollapseSpaces(s) == [s[0]] + CollapseSpaces(s[1..]);
    StepCons(s[0], CollapseSpaces(s[1..]), c);
  }

  /** A character in front of the collapsed text does not change the step, unless it would close an open run. */
  lemma StepCons(a: char, r: string, c: char)
    requires r != [] || !IsSpace(a)
    ensures [a] + CollapseStep(r, c) == CollapseStep([a] + r, c)
  {
    var ar := [a] + r;
    assert ar[|ar| - 1] == if r == [] then a else r[|r| - 1];
  }
}

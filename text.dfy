/** The Python string built-ins the three scripts rely on, over `string`:
    the `in` substring test, `str.split()` with no argument, `str.strip('"')`,
    `int()` of a token and `str()` of an integer. */
module Text {
  import opened Wrappers

  // ---------------------------------------------------------------------
  // Substring test: `sub in s`

  /** `sub in s`: `sub` occurs in `s` at some position. */
  function Contains(s: string, sub: string): (b: bool)
    decreases |s|
  {
    if |sub| > |s| then false
    else if s[..|sub|] == sub then true
    else Contains(s[1..], sub)
  }

  ghost predicate OccursAt(s: string, sub: string, i: int) {
    0 <= i && i + |sub| <= |s| && s[i..i + |sub|] == sub
  }

  /** `Contains` holds exactly when the fragment occurs at some offset. */
  lemma {:induction false} ContainsIff(s: string, sub: string)
    ensures Contains(s, sub) <==> exists i :: OccursAt(s, sub, i)
    decreases |s|
  {
    if |sub| > |s| {
    } else if s[..|sub|] == sub {
      assert OccursAt(s, sub, 0);
    } else {
      ContainsIff(s[1..], sub);
      if Contains(s[1..], sub) {
        var i :| OccursAt(s[1..], sub, i);
        assert s[1..][i..i + |sub|] == s[i + 1..i + 1 + |sub|];
        assert OccursAt(s, sub, i + 1);
      }
      if exists i :: OccursAt(s, sub, i) {
        var i :| OccursAt(s, sub, i);
        assert i != 0;
        assert s[1..][i - 1..i - 1 + |sub|] == s[i..i + |sub|];
        assert OccursAt(s[1..], sub, i - 1);
      }
    }
  }

  // ---------------------------------------------------------------------
  // `str.split()` with no separator

  /** The characters Python's `str.isspace()` accepts. */
  predicate IsSpace(c: char) {
    c == ' ' || c == '\t' || c == '\n' || c == '\r' || c == '\U{B}' || c == '\U{C}'
    || ('\U{1C}' <= c <= '\U{1F}') || c == '\U{85}' || c == '\U{A0}' || c == '\U{1680}'
    || ('\U{2000}' <= c <= '\U{200A}') || c == '\U{2028}' || c == '\U{2029}' || c == '\U{202F}'
    || c == '\U{205F}' || c == '\U{3000}'
  }

  /** A token of `split()`: non-empty and free of whitespace. */
  predicate IsWord(w: string) {
    w != [] && forall j :: 0 <= j < |w| ==> !IsSpace(w[j])
  }

  /** The longest prefix of `s` that holds no whitespace. */
  function TakeWord(s: string): (w: string)
    ensures |w| <= |s| && w == s[..|w|]
    ensures forall j :: 0 <= j < |w| ==> !IsSpace(w[j])
    ensures |w| < |s| ==> IsSpace(s[|w|])
  {
    if s == [] || IsSpace(s[0]) then [] else [s[0]] + TakeWord(s[1..])
  }

  /** `s.split()`: the maximal runs of non-whitespace characters, in order. */
  function Split(s: string): (ws: seq<string>)
    ensures forall i :: 0 <= i < |ws| ==> IsWord(ws[i])
    decreases |s|
  {
    if s == [] then []
    else if IsSpace(s[0]) then Split(s[1..])
    else
      var w := TakeWord(s);
      [w] + Split(s[|w|..])
  }

  /** The tokens joined with single spaces (the inverse of `Split`). */
  function JoinWords(ws: seq<string>): string {
    if ws == [] then "" else if |ws| == 1 then ws[0] else ws[0] + " " + JoinWords(ws[1..])
  }

  lemma {:induction false} TakeWordOfGlued(w: string, rest: string)
    requires forall j :: 0 <= j < |w| ==> !IsSpace(w[j])
    requires rest == [] || IsSpace(rest[0])
    ensures TakeWord(w + rest) == w
    decreases |w|
  {
    if w == [] {
      assert w + rest == rest;
    } else {
      assert (w + rest)[1..] == w[1..] + rest;
      TakeWordOfGlued(w[1..], rest);
    }
  }

  /** Splitting undoes joining: no token is lost, split or merged. */
  lemma {:induction false} SplitJoinWords(ws: seq<string>)
    requires forall i :: 0 <= i < |ws| ==> IsWord(ws[i])
    ensures Split(JoinWords(ws)) == ws
    decreases |ws|
  {
    if ws == [] {
    } else if |ws| == 1 {
      var w := ws[0];
      TakeWordOfGlued(w, []);
      assert w + [] == w;
      assert w[|w|..] == [];
    } else {
      var w, rest := ws[0], " " + JoinWords(ws[1..]);
      var s := w + rest;
      assert JoinWords(ws) == s;
      TakeWordOfGlued(w, rest);
      assert s[|w|..] == rest;
      assert rest[1..] == JoinWords(ws[1..]);
      SplitJoinWords(ws[1..]);
    }
  }

  /** A word ends where whitespace starts: what follows it does not change
      the word taken. */
  lemma {:induction false} TakeWordBeforeSpace(a: string, rest: string)
    requires rest == [] || IsSpace(rest[0])
    ensures TakeWord(a + rest) == TakeWord(a)
    decreases |a|
  {
    if a == [] {
      assert a + rest == rest;
    } else if !IsSpace(a[0]) {
      assert (a + rest)[1..] == a[1..] + rest;
      TakeWordBeforeSpace(a[1..], rest);
    }
  }

  /** A whitespace character separates: the tokens of `a`, a space and `b`
      are those of `a` followed by those of `b`. So a run of whitespace
      counts as one separator, and leading and trailing whitespace gives no
      token. */
  lemma {:induction false} SplitAtSpace(a: string, c: char, b: string)
    requires IsSpace(c)
    ensures Split(a + [c] + b) == Split(a) + Split(b)
    decreases |a|
  {
    var s := a + [c] + b;
    if a == [] {
      assert s[1..] == b;
    } else if IsSpace(a[0]) {
      assert s[1..] == a[1..] + [c] + b;
      SplitAtSpace(a[1..], c, b);
    } else {
      assert s == a + ([c] + b);
      TakeWordBeforeSpace(a, [c] + b);
      var w := TakeWord(a);
      assert s[|w|..] == a[|w|..] + [c] + b;
      SplitAtSpace(a[|w|..], c, b);
    }
  }

  /** The newline `readlines()` leaves at the end of a line gives no token. */
  lemma SplitNewline(s: string)
    ensures Split(s + "\n") == Split(s)
  {
    SplitAtSpace(s, '\n', []);
    assert s + "\n" == s + ['\n'] + [];
  }

  /** A line read from a file, its tokens joined by single spaces and ended
      by a newline, splits back into its tokens. */
  lemma SplitJoinedLine(ws: seq<string>)
    requires forall i :: 0 <= i < |ws| ==> IsWord(ws[i])
    ensures Split(JoinWords(ws) + "\n") == ws
  {
    SplitNewline(JoinWords(ws));
    SplitJoinWords(ws);
  }

  // ---------------------------------------------------------------------
  // `str.strip('"')`

  function StripLeading(s: string): (r: string)
    ensures |r| <= |s| && r == s[|s| - |r|..]
    ensures r == [] || r[0] != '"'
    ensures forall j :: 0 <= j < |s| - |r| ==> s[j] == '"'
  {
    if s != [] && s[0] == '"' then StripLeading(s[1..]) else s
  }

  function StripTrailing(s: string): (r: string)
    ensures |r| <= |s| && r == s[..|r|]
    ensures r == [] || r[|r| - 1] != '"'
    ensures forall j :: |r| <= j < |s| ==> s[j] == '"'
  {
    if s != [] && s[|s| - 1] == '"' then StripTrailing(s[..|s| - 1]) else s
  }

  /** `r` is `s` with `i` quotes cut from the front and the rest of what is
      cut, from the back, quotes too. */
  ghost predicate TrimmedAt(s: string, r: string, i: int) {
    && 0 <= i <= i + |r| <= |s| && r == s[i..i + |r|]
    && (forall j :: 0 <= j < i ==> s[j] == '"')
    && (forall j :: i + |r| <= j < |s| ==> s[j] == '"')
  }

  /** `s.strip('"')`: `s` without the double quotes at either end. The result
      is the middle of `s`, everything cut off is a quote, and the result
      neither starts nor ends with one. */
  function StripQuotes(s: string): (r: string)
    ensures exists i :: TrimmedAt(s, r, i)
    ensures r == [] || (r[0] != '"' && r[|r| - 1] != '"')
  {
    var left := StripLeading(s);
    var r := StripTrailing(left);
    var i := |s| - |left|;
    assert TrimmedAt(s, r, i);
    r
  }

  /** A quote-wrapped field loses exactly its wrapping. */
  lemma StripQuotesOfQuoted(w: string)
    requires w == [] || (w[0] != '"' && w[|w| - 1] != '"')
    ensures StripQuotes("\"" + w + "\"") == w
  {
    var q := "\"" + w + "\"";
    assert q[1..] == w + "\"";
    if w != [] {
      assert (w + "\"")[0] == w[0];
      assert StripLeading(q) == w + "\"";
      assert (w + "\"")[..|w|] == w;
    }
  }

  // ---------------------------------------------------------------------
  // `int(token)` and `str(n)`

  predicate IsDigit(c: char) {
    '0' <= c <= '9'
  }

  function DigitValue(c: char): (d: nat)
    requires IsDigit(c)
    ensures d < 10
  {
    c as int - '0' as int
  }

  function DigitChar(d: nat): (c: char)
    requires d < 10
    ensures IsDigit(c) && DigitValue(c) == d
  {
    (d + '0' as int) as char
  }

  /** What `int()` accepts after the optional sign: ASCII digits, with single
      underscores allowed between two digits (`1_000`). */
  predicate IsDigitGroup(s: string) {
    s != [] && forall i :: 0 <= i < |s| ==> GroupCharOk(s, i)
  }

  /** Position `i` of `s` holds a digit, or an underscore between two digits. */
  predicate GroupCharOk(s: string, i: nat)
    requires i < |s|
  {
    IsDigit(s[i]) || (s[i] == '_' && 0 < i < |s| - 1 && IsDigit(s[i + 1]))
  }

  /** The number the digits of `s` spell, underscores skipped. */
  function DigitsValue(s: string): (n: nat)
    requires forall i :: 0 <= i < |s| ==> IsDigit(s[i]) || s[i] == '_'
  {
    if s == [] then 0
    else
      var last := s[|s| - 1];
      var init := DigitsValue(s[..|s| - 1]);
      if last == '_' then init else 10 * init + DigitValue(last)
  }

  /** The value of a digit group. */
  function DigitsGroupValue(s: string): nat
    requires IsDigitGroup(s)
  {
    forall i | 0 <= i < |s| ensures IsDigit(s[i]) || s[i] == '_' {
      assert GroupCharOk(s, i);
    }
    DigitsValue(s)
  }

  /** `int(s)` for a token `s`: `None` where Python raises `ValueError`. */
  function ParseInt(s: string): (r: Option<int>)
    ensures r.Some? <==> (IsDigitGroup(s) || (|s| > 0 && (s[0] == '+' || s[0] == '-') && IsDigitGroup(s[1..])))
  {
    if |s| > 0 && (s[0] == '+' || s[0] == '-') then
      if IsDigitGroup(s[1..]) then
        var v: int := DigitsGroupValue(s[1..]);
        Some(if s[0] == '-' then -v else v)
      else
        assert !GroupCharOk(s, 0);
        None
    else if IsDigitGroup(s) then Some(DigitsGroupValue(s))
    else None
  }

  /** `str(n)` for a natural number: decimal digits, no leading zero. */
  function ShowNat(n: nat): (s: string)
    ensures s != [] && forall i :: 0 <= i < |s| ==> IsDigit(s[i])
    ensures |s| > 1 ==> s[0] != '0'
  {
    if n < 10 then [DigitChar(n)] else ShowNat(n / 10) + [DigitChar(n % 10)]
  }

  /** `str(n)`: a minus sign for negative numbers, then the digits. */
  function Show(n: int): (s: string)
    ensures s != [] && (s[0] == '-' || IsDigit(s[0]))
  {
    if n < 0 then "-" + ShowNat(-n) else ShowNat(n)
  }

  lemma {:induction false} DigitsValueOfShowNat(n: nat)
    ensures DigitsValue(ShowNat(n)) == n
  {
    if n >= 10 {
      var s := ShowNat(n);
      assert s[..|s| - 1] == ShowNat(n / 10);
      DigitsValueOfShowNat(n / 10);
    }
  }

  /** `int(str(n)) == n`: the decimal text of every integer reads back as it. */
  lemma ParseShow(n: int)
    ensures ParseInt(Show(n)) == Some(n)
  {
    var m: nat := if n < 0 then -n else n;
    var digits := ShowNat(m);
    DigitsValueOfShowNat(m);
    assert IsDigitGroup(digits);
    if n < 0 {
      assert Show(n)[1..] == digits;
    }
  }
}

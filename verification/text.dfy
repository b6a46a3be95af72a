/**
 * The three .NET string operations the plugin relies on, for the inputs it gives them:
 * `String.ToLower`, `String.Replace(old, "")` and `Int32.TryParse`, together with the
 * decimal rendering `Int32.ToString` that `TryParse` inverts.
 */
module Text {
  import opened Wrappers
  import opened Int32s

  // ---------------------------------------------------------------- ToLower

  predicate IsUpper(c: char) {
    'A' <= c <= 'Z'
  }

  function LowerChar(c: char): char {
    if IsUpper(c) then (c as int + 32) as char else c
  }

  /**
   * `String.ToLower` on the ASCII letters: each upper-case letter becomes the
   * letter 32 code points above it, every other character is kept, and no
   * upper-case letter is left.
   */
  function ToLower(s: string): (r: string)
    ensures |r| == |s|
    ensures forall i :: 0 <= i < |s| ==> r[i] == LowerChar(s[i])
    ensures forall i :: 0 <= i < |s| ==> if IsUpper(s[i]) then r[i] as int == s[i] as int + 32 else r[i] == s[i]
    ensures forall i :: 0 <= i < |r| ==> !IsUpper(r[i])
  {
    seq(|s|, i requires 0 <= i < |s| => LowerChar(s[i]))
  }

  /** Lower-casing twice is lower-casing once. */
  lemma ToLowerIdempotent(s: string)
    ensures ToLower(ToLower(s)) == ToLower(s)
  {
  }

  /** Lower-casing works character by character, so it distributes over concatenation. */
  lemma ToLowerConcat(a: string, b: string)
    ensures ToLower(a + b) == ToLower(a) + ToLower(b)
  {
  }

  // ---------------------------------------------------------------- Replace

  /** `pat` occurs in `s` starting at index `i`. */
  predicate OccursAt(s: string, pat: string, i: int) {
    0 <= i && i + |pat| <= |s| && s[i..i + |pat|] == pat
  }

  /**
   * `s.Replace(pat, "")`: one ordinal left-to-right scan that deletes each
   * non-overlapping occurrence of `pat`; the text left behind is not scanned again.
   */
  function Remove(s: string, pat: string): (r: string)
    requires |pat| > 0
    ensures |r| <= |s|
    decreases |s|
  {
    if |s| < |pat| then s
    else if s[..|pat|] == pat then Remove(s[|pat|..], pat)
    else [s[0]] + Remove(s[1..], pat)
  }

  /** `Remove` only deletes: every character it returns, with its multiplicity, was in the input. */
  lemma {:induction false} RemoveOnlyDeletes(s: string, pat: string)
    requires |pat| > 0
    ensures multiset(Remove(s, pat)) <= multiset(s)
    decreases |s|
  {
    if |s| >= |pat| {
      if s[..|pat|] == pat {
        RemoveOnlyDeletes(s[|pat|..], pat);
        assert s == s[..|pat|] + s[|pat|..];
      } else {
        RemoveOnlyDeletes(s[1..], pat);
        assert s == [s[0]] + s[1..];
      }
    }
  }

  /** `Remove` deletes whole copies of `pat`: `k` of them. */
  lemma {:induction false} RemoveDeletesWholeCopies(s: string, pat: string) returns (k: nat)
    requires |pat| > 0
    ensures |s| - |Remove(s, pat)| == k * |pat|
    decreases |s|
  {
    if |s| < |pat| {
      k := 0;
    } else if s[..|pat|] == pat {
      var rest := s[|pat|..];
      var k' := RemoveDeletesWholeCopies(rest, pat);
      assert Remove(s, pat) == Remove(rest, pat);
      k := k' + 1;
      assert k * |pat| == k' * |pat| + |pat|;
    } else {
      var rest := s[1..];
      k := RemoveDeletesWholeCopies(rest, pat);
      assert |Remove(s, pat)| == 1 + |Remove(rest, pat)|;
    }
  }

  /** A string in which `pat` does not occur comes back from `Remove` unchanged. */
  lemma {:induction false} RemoveWithoutOccurrence(s: string, pat: string)
    requires |pat| > 0
    requires forall i :: 0 <= i <= |s| - |pat| ==> !OccursAt(s, pat, i)
    ensures Remove(s, pat) == s
    decreases |s|
  {
    if |s| >= |pat| {
      assert !OccursAt(s, pat, 0);
      assert s[0..|pat|] == s[..|pat|];
      forall i | 0 <= i <= |s[1..]| - |pat|
        ensures !OccursAt(s[1..], pat, i)
      {
        assert !OccursAt(s, pat, i + 1);
        assert s[1..][i..i + |pat|] == s[i + 1..i + 1 + |pat|];
      }
      RemoveWithoutOccurrence(s[1..], pat);
      assert [s[0]] + s[1..] == s;
    }
  }

  /** `s` with every copy of `c` dropped and the other characters kept, in their order. */
  function Filter(s: string, c: char): (r: string)
    decreases |s|
  {
    if |s| == 0 then []
    else if s[0] == c then Filter(s[1..], c)
    else [s[0]] + Filter(s[1..], c)
  }

  /** The filter deletes every copy of `c` and keeps every other character as many times as it occurred. */
  lemma {:induction false} FilterDeletesExactlyIt(s: string, c: char)
    ensures c !in Filter(s, c)
    ensures forall d :: d != c ==> multiset(Filter(s, c))[d] == multiset(s)[d]
    decreases |s|
  {
    if |s| >= 1 {
      FilterDeletesExactlyIt(s[1..], c);
      assert s == [s[0]] + s[1..];
    }
  }

  /** Filtering a concatenation filters each part. */
  lemma {:induction false} FilterConcat(a: string, b: string, c: char)
    ensures Filter(a + b, c) == Filter(a, c) + Filter(b, c)
    decreases |a|
  {
    if |a| > 0 {
      assert (a + b)[0] == a[0];
      assert (a + b)[1..] == a[1..] + b;
      FilterConcat(a[1..], b, c);
    } else {
      assert a + b == b;
    }
  }

  /** Removing a one-character pattern is exactly filtering that character out: the order of the rest is kept. */
  lemma {:induction false} RemoveCharIsFilter(s: string, c: char)
    ensures Remove(s, [c]) == Filter(s, c)
    decreases |s|
  {
    if |s| >= 1 {
      assert s[..1] == [c] <==> s[0] == c by {
        if s[0] == c { assert s[..1] == [s[0]]; }
      }
      assert s[1..] == s[|[c]|..];
      RemoveCharIsFilter(s[1..], c);
    }
  }

  /**
   * The scan deletes the first occurrence it meets: when `pat` starts nowhere in
   * `a`, the copy of `pat` right after `a` is removed and the scan resumes behind it.
   */
  lemma {:induction false} RemoveSkipsOccurrence(a: string, pat: string, b: string)
    requires |pat| > 0
    requires forall i :: 0 <= i < |a| ==> !OccursAt(a + pat + b, pat, i)
    ensures Remove(a + pat + b, pat) == a + Remove(b, pat)
    decreases |a|
  {
    var s := a + pat + b;
    if |a| == 0 {
      assert s == pat + b;
      assert s[..|pat|] == pat;
      assert s[|pat|..] == b;
    } else {
      var rest := a[1..] + pat + b;
      assert s == [a[0]] + rest;
      assert s[..|pat|] != pat by {
        assert !OccursAt(s, pat, 0);
        assert s[0..|pat|] == s[..|pat|];
      }
      assert s[1..] == rest;
      assert Remove(s, pat) == [a[0]] + Remove(rest, pat);
      NoOccurrenceInTail(a, pat, b);
      RemoveSkipsOccurrence(a[1..], pat, b);
      assert [a[0]] + (a[1..] + Remove(b, pat)) == a + Remove(b, pat);
    }
  }

  lemma NoOccurrenceInTail(a: string, pat: string, b: string)
    requires |a| > 0
    requires forall i :: 0 <= i < |a| ==> !OccursAt(a + pat + b, pat, i)
    ensures forall i :: 0 <= i < |a[1..]| ==> !OccursAt(a[1..] + pat + b, pat, i)
  {
    var s := a + pat + b;
    forall i | 0 <= i < |a[1..]|
      ensures !OccursAt(a[1..] + pat + b, pat, i)
    {
      assert !OccursAt(s, pat, i + 1);
      assert s[1..] == a[1..] + pat + b;
      if i + |pat| <= |s[1..]| {
        assert s[1..][i..i + |pat|] == s[i + 1..i + 1 + |pat|];
      }
    }
  }

  /** The scan is single-pass: deleting one "tile" can join the text around it into a new one. */
  lemma RemoveIsSinglePass()
    ensures Remove("ttileile", "tile") == "tile"
    ensures Remove(Remove("ttileile", "tile"), "tile") == ""
  {
    var s := "ttileile";
    assert s[..4] != "tile" by { assert s[..4][1] == 't'; }
    assert s[1..] == "tileile";
    assert Remove(s, "tile") == [s[0]] + Remove("tileile", "tile");
    assert "tileile"[..4] == "tile" by {
      var a := "tileile"[..4];
      assert a[0] == 't' && a[1] == 'i' && a[2] == 'l' && a[3] == 'e';
    }
    assert "tileile"[4..] == "ile";
    assert Remove("tileile", "tile") == Remove("ile", "tile") == "ile";
    assert [s[0]] + "ile" == "tile" by {
      var a := [s[0]] + "ile";
      assert a[0] == 't' && a[1] == 'i' && a[2] == 'l' && a[3] == 'e';
    }
    assert "tile"[..4] == "tile";
    assert "tile"[4..] == "";
    assert Remove("tile", "tile") == Remove("", "tile") == "";
  }

  // ---------------------------------------------------------------- Int32.TryParse

  /** The white space `NumberStyles.Integer` accepts around the number: U+0009 to U+000D and U+0020. */
  predicate IsWhite(c: char) {
    c == ' ' || '\t' <= c <= '\r'
  }

  predicate IsDigit(c: char) {
    '0' <= c <= '9'
  }

  predicate AllDigits(s: string) {
    forall i :: 0 <= i < |s| ==> IsDigit(s[i])
  }

  predicate AllWhite(s: string) {
    forall i :: 0 <= i < |s| ==> IsWhite(s[i])
  }

  /** Drops the leading white space, and only that. */
  function TrimStart(s: string): (r: string)
    ensures |r| <= |s| && r == s[|s| - |r|..]
    ensures AllWhite(s[..|s| - |r|])
    ensures |r| > 0 ==> !IsWhite(r[0])
  {
    if |s| > 0 && IsWhite(s[0]) then TrimStart(s[1..]) else s
  }

  /** Drops the trailing white space, and only that. */
  function TrimEnd(s: string): (r: string)
    ensures |r| <= |s| && r == s[..|r|]
    ensures AllWhite(s[|r|..])
    ensures |r| > 0 ==> !IsWhite(r[|r| - 1])
  {
    if |s| > 0 && IsWhite(s[|s| - 1]) then TrimEnd(s[..|s| - 1]) else s
  }

  function DigitValue(c: char): nat
    requires IsDigit(c)
  {
    c as int - '0' as int
  }

  /** The number a run of decimal digits denotes, read most significant digit first. */
  function DigitsValue(s: string): nat
    requires AllDigits(s)
  {
    if |s| == 0 then 0 else DigitsValue(s[..|s| - 1]) * 10 + DigitValue(s[|s| - 1])
  }

  /**
   * `Int32.TryParse(s, out v)` with the invariant culture's signs: optional white
   * space, an optional `+` or `-`, one or more decimal digits, optional white space,
   * and a value that fits in 32 bits. `None` is the `false` return, after which
   * the `out` target holds 0.
   */
  function TryParseInt32(s: string): (r: Option<Int32>)
    ensures r.Some? ==> exists i :: 0 <= i < |s| && IsDigit(s[i])
  {
    var t := TrimEnd(TrimStart(s));
    var r := ParseTrimmed(t);
    if r.Some? then
      var k := |s| - |TrimStart(s)| + (if t[0] == '-' || t[0] == '+' then 1 else 0);
      assert IsDigit(s[k]);
      r
    else r
  }

  /** The sign and digits between the white space; `t` has been trimmed. */
  function ParseTrimmed(t: string): (r: Option<Int32>)
    ensures r.Some? ==> |t| > 0 && (IsDigit(t[0]) || (|t| > 1 && IsDigit(t[1])))
  {
    var signed := |t| > 0 && (t[0] == '-' || t[0] == '+');
    var digits := if signed then t[1..] else t;
    if |digits| == 0 || !AllDigits(digits) then None
    else
      var magnitude: int := DigitsValue(digits);
      var v := if signed && t[0] == '-' then -magnitude else magnitude;
      if InInt32(v) then
        assert IsDigit(digits[0]);
        Some(v)
      else None
  }

  /** The sign part of a number: nothing, `+` or `-`. */
  predicate IsSign(sign: string) {
    sign == "" || sign == "+" || sign == "-"
  }

  /** The value of decimal digits under a sign. */
  function SignedValue(sign: string, digits: string): int
    requires AllDigits(digits)
  {
    var magnitude: int := DigitsValue(digits);
    if sign == "-" then -magnitude else magnitude
  }

  /** White space, an optional sign, at least one digit, white space: the text `NumberStyles.Integer` admits. */
  predicate NumberShape(lead: string, sign: string, digits: string, trail: string) {
    AllWhite(lead) && IsSign(sign) && |digits| > 0 && AllDigits(digits) && AllWhite(trail)
  }

  /** Text of the admitted shape parses to its signed value exactly when that value fits in 32 bits. */
  lemma ParseAcceptsShape(lead: string, sign: string, digits: string, trail: string)
    requires NumberShape(lead, sign, digits, trail)
    ensures TryParseInt32(lead + sign + digits + trail)
         == if InInt32(SignedValue(sign, digits)) then Some(SignedValue(sign, digits)) else None
  {
    TrimShape(lead, sign, digits, trail);
    ParseTrimmedShape(sign, digits);
  }

  lemma TrimShape(lead: string, sign: string, digits: string, trail: string)
    requires NumberShape(lead, sign, digits, trail)
    ensures TrimEnd(TrimStart(lead + sign + digits + trail)) == sign + digits
  {
    var t := sign + digits;
    assert !IsWhite(t[0]) by { if sign == "" { assert t[0] == digits[0]; } }
    assert !IsWhite(t[|t| - 1]) by { assert t[|t| - 1] == digits[|digits| - 1]; }
    assert lead + sign + digits + trail == lead + (t + trail);
    TrimAround(lead, t, trail);
  }

  /** Trimming white space on both sides of a text with no white space at either end gives the text. */
  lemma TrimAround(lead: string, t: string, trail: string)
    requires AllWhite(lead) && AllWhite(trail)
    requires |t| > 0 && !IsWhite(t[0]) && !IsWhite(t[|t| - 1])
    ensures TrimEnd(TrimStart(lead + (t + trail))) == t
  {
    TrimWhitePrefix(lead, t + trail);
    assert (t + trail)[0] == t[0];
    TrimStartKeeps(t + trail);
    TrimWhiteSuffix(t, trail);
    TrimEndKeeps(t);
  }

  lemma TrimStartKeeps(s: string)
    requires |s| > 0 && !IsWhite(s[0])
    ensures TrimStart(s) == s
  {
  }

  lemma TrimEndKeeps(s: string)
    requires |s| > 0 && !IsWhite(s[|s| - 1])
    ensures TrimEnd(s) == s
  {
  }

  lemma ParseTrimmedShape(sign: string, digits: string)
    requires IsSign(sign) && |digits| > 0 && AllDigits(digits)
    ensures ParseTrimmed(sign + digits)
         == if InInt32(SignedValue(sign, digits)) then Some(SignedValue(sign, digits)) else None
  {
    var t := sign + digits;
    if sign == "" {
      assert t == digits;
      assert !(t[0] == '-' || t[0] == '+');
    } else {
      assert t[0] == sign[0];
      assert t[1..] == digits;
    }
  }

  /** Conversely, text that parses has the admitted shape, and its value is the signed value of its digits. */
  lemma ParseSuccessHasShape(s: string) returns (lead: string, sign: string, digits: string, trail: string)
    requires TryParseInt32(s).Some?
    ensures s == lead + sign + digits + trail
    ensures NumberShape(lead, sign, digits, trail)
    ensures TryParseInt32(s).value == SignedValue(sign, digits)
  {
    var t := TrimEnd(TrimStart(s));
    assert TryParseInt32(s) == ParseTrimmed(t);
    lead, trail := TrimSplit(s);
    sign, digits := ParseTrimmedHasShape(t);
    ConcatFour(s, lead, t, trail, sign, digits);
  }

  lemma ConcatFour(s: string, lead: string, t: string, trail: string, sign: string, digits: string)
    requires s == lead + t + trail && t == sign + digits
    ensures s == lead + sign + digits + trail
  {
  }

  /** Every text is its leading white space, its trimmed core and its trailing white space. */
  lemma TrimSplit(s: string) returns (lead: string, trail: string)
    ensures s == lead + TrimEnd(TrimStart(s)) + trail
    ensures AllWhite(lead) && AllWhite(trail)
  {
    var ts := TrimStart(s);
    var t := TrimEnd(ts);
    lead := LeadOf(s);
    trail := TrailOf(ts);
    Regroup(s, lead, ts, t, trail);
  }

  lemma Regroup(s: string, lead: string, ts: string, t: string, trail: string)
    requires s == lead + ts && ts == t + trail
    ensures s == lead + t + trail
  {
  }

  lemma LeadOf(s: string) returns (lead: string)
    ensures s == lead + TrimStart(s) && AllWhite(lead)
  {
    lead := s[..|s| - |TrimStart(s)|];
  }

  lemma TrailOf(s: string) returns (trail: string)
    ensures s == TrimEnd(s) + trail && AllWhite(trail)
  {
    trail := s[|TrimEnd(s)|..];
  }

  lemma ParseTrimmedHasShape(t: string) returns (sign: string, digits: string)
    requires ParseTrimmed(t).Some?
    ensures t == sign + digits
    ensures IsSign(sign) && |digits| > 0 && AllDigits(digits)
    ensures ParseTrimmed(t).value == SignedValue(sign, digits)
  {
    if t[0] == '-' || t[0] == '+' {
      sign := t[..1];
      digits := t[1..];
      assert sign == [t[0]];
    } else {
      sign := "";
      digits := t;
    }
    assert t == sign + digits;
  }

  /** Leading white space is trimmed away entirely. */
  lemma {:induction false} TrimWhitePrefix(w: string, s: string)
    requires AllWhite(w)
    ensures TrimStart(w + s) == TrimStart(s)
    decreases |w|
  {
    if |w| > 0 {
      assert (w + s)[0] == w[0];
      assert (w + s)[1..] == w[1..] + s;
      TrimWhitePrefix(w[1..], s);
    } else {
      assert w + s == s;
    }
  }

  /** Trailing white space is trimmed away entirely. */
  lemma {:induction false} TrimWhiteSuffix(s: string, w: string)
    requires AllWhite(w)
    ensures TrimEnd(s + w) == TrimEnd(s)
    decreases |w|
  {
    if |w| > 0 {
      assert (s + w)[|s + w| - 1] == w[|w| - 1];
      assert (s + w)[..|s + w| - 1] == s + w[..|w| - 1];
      TrimWhiteSuffix(s, w[..|w| - 1]);
    } else {
      assert s + w == s;
    }
  }

  // ---------------------------------------------------------------- Int32.ToString

  function DigitChar(d: nat): (c: char)
    requires d < 10
    ensures IsDigit(c) && DigitValue(c) == d
  {
    ('0' as int + d) as char
  }

  function Digits(n: nat): (r: string)
    ensures |r| > 0 && AllDigits(r)
  {
    if n < 10 then [DigitChar(n)] else Digits(n / 10) + [DigitChar(n % 10)]
  }

  /** The decimal text `Int32.ToString()` produces. */
  function Format(n: int): string {
    if n < 0 then "-" + Digits(-n) else Digits(n)
  }

  lemma {:induction false} DigitsValueOfDigits(n: nat)
    ensures DigitsValue(Digits(n)) == n
  {
    if n >= 10 {
      DigitsValueOfDigits(n / 10);
      var d := Digits(n);
      assert d[..|d| - 1] == Digits(n / 10);
    }
  }

  /** Parsing the decimal text of any 32-bit integer gives that integer back. */
  lemma ParseFormatRoundTrip(n: Int32)
    ensures TryParseInt32(Format(n)) == Some(n)
  {
    var s := Format(n);
    assert !IsWhite(s[0]);
    assert TrimStart(s) == s;
    assert !IsWhite(s[|s| - 1]);
    assert TrimEnd(s) == s;
    ParseTrimmedFormat(n);
  }

  lemma ParseTrimmedFormat(n: Int32)
    ensures ParseTrimmed(Format(n)) == Some(n)
  {
    if n < 0 {
      DigitsValueOfDigits(-(n as int));
      var s := Format(n);
      assert s[1..] == Digits(-(n as int));
    } else {
      DigitsValueOfDigits(n);
    }
  }

  /** White space on either side of the number does not change what it parses to. */
  lemma PaddingIsIgnored(s: string, c: char, d: char)
    requires IsWhite(c) && IsWhite(d)
    ensures TryParseInt32([c] + s + [d]) == TryParseInt32(s)
  {
    var p := [c] + s + [d];
    assert p[1..] == s + [d];
    assert TrimStart(p) == TrimStart(s + [d]);
    TrimStartThenEnd(s, d);
  }

  lemma {:induction false} TrimStartThenEnd(s: string, d: char)
    requires IsWhite(d)
    ensures TrimEnd(TrimStart(s + [d])) == TrimEnd(TrimStart(s))
    decreases |s|
  {
    if |s| == 0 {
      assert TrimStart([d]) == TrimStart([]);
    } else if IsWhite(s[0]) {
      assert (s + [d])[1..] == s[1..] + [d];
      TrimStartThenEnd(s[1..], d);
    } else {
      var t := s + [d];
      assert t[..|t| - 1] == s;
    }
  }
}

/** The Go string helpers that the cron parsers call. */
module Text {
  import opened Wrappers

  predicate IsDigit(c: char) { '0' <= c <= '9' }

  predicate IsSpace(c: char) {
    c == ' ' || '\t' <= c <= '\r' || c == '\U{0085}' || c == '\U{00A0}'
  }

  /** `strings.HasPrefix` */
  predicate HasPrefix(s: string, prefix: string) { prefix <= s }

  function IndexOf(s: string, c: char): (i: nat)
    requires c in s
    ensures i < |s| && s[i] == c && c !in s[..i]
  {
    if s[0] == c then 0 else
      var i := 1 + IndexOf(s[1..], c);
      assert s[..i] == [s[0]] + s[1..][..i - 1];
      i
  }

  /** `strings.Split` at a single character. */
  function Split(s: string, c: char): (parts: seq<string>)
    ensures |parts| > 0
    ensures c !in s ==> parts == [s]
  {
    if c !in s then [s] else
      var i := IndexOf(s, c);
      [s[..i]] + Split(s[i + 1..], c)
  }

  /** Joining the parts at the separator gives the string back. */
  function Join(parts: seq<string>, c: char): string {
    if |parts| == 0 then "" else if |parts| == 1 then parts[0] else parts[0] + [c] + Join(parts[1..], c)
  }

  lemma {:induction false} JoinOfSplit(s: string, c: char)
    ensures Join(Split(s, c), c) == s
    ensures forall k :: 0 <= k < |Split(s, c)| ==> c !in Split(s, c)[k]
  {
    if c in s {
      var i := IndexOf(s, c);
      var rest := Split(s[i + 1..], c);
      JoinOfSplit(s[i + 1..], c);
      assert s == s[..i] + [c] + s[i + 1..];
      assert Split(s, c)[1..] == rest && Split(s, c)[0] == s[..i];
    }
  }

  function NonEmpty(parts: seq<string>): seq<string> {
    if parts == [] then [] else (if parts[0] == "" then [] else [parts[0]]) + NonEmpty(parts[1..])
  }

  /** `strings.FieldsFunc` at a single character: the non-empty parts. */
  function FieldsAt(s: string, c: char): seq<string> { NonEmpty(Split(s, c)) }

  lemma {:induction false} NoneEmpty(parts: seq<string>)
    requires forall k :: 0 <= k < |parts| ==> parts[k] != ""
    ensures NonEmpty(parts) == parts
  {
    if parts != [] {
      NoneEmpty(parts[1..]);
    }
  }

  /** `strings.TrimSpace` */
  function TrimSpace(s: string): string {
    if s != "" && IsSpace(s[0]) then TrimSpace(s[1..])
    else if s != "" && IsSpace(s[|s| - 1]) then TrimSpace(s[..|s| - 1])
    else s
  }

  predicate Blankless(s: string) { forall k :: 0 <= k < |s| ==> !IsSpace(s[k]) }

  lemma {:induction false} SplitBlankless(s: string, c: char)
    requires Blankless(s)
    ensures forall k :: 0 <= k < |Split(s, c)| ==> Blankless(Split(s, c)[k])
  {
    if c in s {
      var i := IndexOf(s, c);
      SplitBlankless(s[i + 1..], c);
      assert Split(s, c) == [s[..i]] + Split(s[i + 1..], c);
    }
  }

  /** `strings.ToLower` on ASCII letters. */
  function ToLower(s: string): (lower: string)
    ensures |lower| == |s|
    ensures forall k :: 0 <= k < |s| && !('A' <= s[k] <= 'Z') ==> lower[k] == s[k]
    ensures forall k :: 0 <= k < |s| && 'A' <= s[k] <= 'Z' ==>
              'a' <= lower[k] <= 'z' && lower[k] as int - 'a' as int == s[k] as int - 'A' as int
  {
    seq(|s|, k requires 0 <= k < |s| => if 'A' <= s[k] <= 'Z' then s[k] + ' ' else s[k])
  }

  function Digit(c: char): nat
    requires IsDigit(c)
  {
    (c as int) - ('0' as int)
  }

  predicate AllDigits(s: string) { forall k :: 0 <= k < |s| ==> IsDigit(s[k]) }

  function Value(digits: string): nat
    requires AllDigits(digits)
  {
    if digits == "" then 0 else 10 * Value(digits[..|digits| - 1]) + Digit(digits[|digits| - 1])
  }

  function Unsigned(s: string): string { if s != "" && (s[0] == '+' || s[0] == '-') then s[1..] else s }

  /** `strconv.Atoi`: an optional sign, at least one digit, and a value in 64 bits. */
  function Atoi(s: string): Option<int> {
    var digits := Unsigned(s);
    if digits == "" || !AllDigits(digits) then None
    else
      var magnitude: int := Value(digits);
      var n := if s[0] == '-' then -magnitude else magnitude;
      if -0x8000_0000_0000_0000 <= n < 0x8000_0000_0000_0000 then Some(n) else None
  }

  predicate Numeric(c: char) { IsDigit(c) || c == '+' || c == '-' }

  lemma AtoiNumeric(s: string)
    requires Atoi(s).Some?
    ensures s != "" && forall k :: 0 <= k < |s| ==> Numeric(s[k])
    ensures forall k :: 0 < k < |s| ==> IsDigit(s[k])
    ensures TrimSpace(s) == s
  {
    hide Value;
    var digits := Unsigned(s);
    if digits == s {
      assert forall k :: 0 <= k < |s| ==> IsDigit(s[k]);
    } else {
      forall k | 0 < k < |s|
        ensures IsDigit(s[k])
      {
        assert s[k] == digits[k - 1];
      }
    }
  }

  function DigitChar(d: nat): (c: char)
    requires d < 10
    ensures IsDigit(c) && Digit(c) == d
  {
    "0123456789"[d]
  }

  function Digits(n: nat): (digits: string)
    ensures digits != "" && AllDigits(digits)
  {
    if n < 10 then [DigitChar(n)] else Digits(n / 10) + [DigitChar(n % 10)]
  }

  /** `strconv.Itoa` and the `%d` verb. */
  function Itoa(n: int): string { if n < 0 then "-" + Digits(-n) else Digits(n) }

  lemma {:induction false} ValueOfDigits(n: nat)
    ensures Value(Digits(n)) == n
  {
    if n < 10 {
      assert Digits(n)[..0] == "";
    } else {
      ValueOfDigits(n / 10);
      assert Digits(n)[..|Digits(n)| - 1] == Digits(n / 10);
    }
  }

  /** A number in 64 bits is written and read back. */
  lemma AtoiItoa(n: int)
    requires -0x8000_0000_0000_0000 <= n < 0x8000_0000_0000_0000
    ensures Atoi(Itoa(n)) == Some(n)
  {
    var m := if n < 0 then -n else n;
    ValueOfDigits(m);
    hide Value, Digits;
    assert IsDigit(Digits(m)[0]);
    assert n < 0 ==> Itoa(n)[1..] == Digits(m);
  }

  /** Splitting at the first separator. */
  lemma SplitAt(a: string, c: char, b: string)
    requires c !in a
    ensures Split(a + [c] + b, c) == [a] + Split(b, c)
  {
    var s := a + [c] + b;
    assert s[|a|] == c;
    var i := IndexOf(s, c);
    assert forall k :: 0 <= k < |a| ==> s[k] == a[k];
    assert forall k :: 0 <= k < i ==> s[k] == s[..i][k];
    assert i == |a|;
    assert s[..i] == a && s[i + 1..] == b;
  }

  /** Joined parts without the separator are split again. */
  lemma {:induction false} SplitOfJoin(parts: seq<string>, c: char)
    requires parts != [] && forall k :: 0 <= k < |parts| ==> c !in parts[k]
    ensures Split(Join(parts, c), c) == parts
  {
    if |parts| > 1 {
      SplitOfJoin(parts[1..], c);
      SplitAt(parts[0], c, Join(parts[1..], c));
    }
  }

  /** The text of a number is digits only. */
  lemma Numeral(n: nat)
    requires n < 0x8000_0000_0000_0000
    ensures AllDigits(Itoa(n)) && Itoa(n) != "" && Atoi(Itoa(n)) == Some(n) && TrimSpace(Itoa(n)) == Itoa(n)
    ensures '-' !in Itoa(n) && ',' !in Itoa(n) && '*' !in Itoa(n) && '/' !in Itoa(n) && '?' !in Itoa(n)
  {
    AtoiItoa(n);
    AtoiNumeric(Itoa(n));
    hide Atoi, TrimSpace, Digits;
    assert forall k :: 0 <= k < |Itoa(n)| ==> IsDigit(Itoa(n)[k]);
  }

  // The laws of these helpers.

  /** Decimal text is a number in positional notation. */
  lemma DecimalText(a: string, c: char)
    requires AllDigits(a) && IsDigit(c)
    ensures AllDigits(a + [c]) && Value(a + [c]) == 10 * Value(a) + (c as int - '0' as int)
    ensures Value("") == 0
  {
    assert (a + [c])[..|a|] == a;
  }

  /** A number is read from digits with at most one sign before them, within 64 bits, and from nothing else. */
  lemma AtoiReads(digits: string, s: string)
    ensures digits != "" && AllDigits(digits) ==>
              && (Value(digits) < 0x8000_0000_0000_0000 ==> Atoi(digits) == Atoi("+" + digits) == Some(Value(digits)))
              && (Value(digits) <= 0x8000_0000_0000_0000 ==>
                 Atoi("-" + digits).Some? && Atoi("-" + digits).value == -(Value(digits) as int))
              && (Value(digits) >= 0x8000_0000_0000_0000 ==> Atoi(digits) == Atoi("+" + digits) == None)
              && (Value(digits) > 0x8000_0000_0000_0000 ==> Atoi("-" + digits) == None)
    ensures Atoi(s).Some? ==> exists d :: d != "" && AllDigits(d) && (s == d || s == "+" + d || s == "-" + d)
  {
    hide Value;
    assert ("+" + digits)[1..] == digits && ("-" + digits)[1..] == digits;
    if digits != "" && AllDigits(digits) {
      assert IsDigit(digits[0]);
    }
    if Atoi(s).Some? {
      var d := Unsigned(s);
      assert s == d || s == "+" + d || s == "-" + d;
    }
  }

  /** Blanks around a text are trimmed, and nothing else. */
  lemma {:induction false} TrimmedSpaces(left: string, core: string, right: string)
    requires forall k :: 0 <= k < |left| ==> IsSpace(left[k])
    requires forall k :: 0 <= k < |right| ==> IsSpace(right[k])
    requires core != "" && !IsSpace(core[0]) && !IsSpace(core[|core| - 1])
    ensures TrimSpace(left + core + right) == core
    ensures IsSpace(' ') && IsSpace('\t') && IsSpace('\n') && IsSpace('\r') && !IsSpace('0') && !IsSpace('*')
    decreases |left| + |right|
  {
    var s := left + core + right;
    if left != "" {
      assert s[1..] == left[1..] + core + right;
      TrimmedSpaces(left[1..], core, right);
    } else if right != "" {
      var last := |right| - 1;
      assert s[0] == core[0] && s[..|s| - 1] == left + core + right[..last];
      TrimmedSpaces(left, core, right[..last]);
    } else {
      assert s == core;
    }
  }

  /** Empty parts are dropped, and the others stay in order. */
  lemma {:induction false} EmptyDropped(a: seq<string>, part: string, b: seq<string>)
    ensures NonEmpty(a + [part] + b) == NonEmpty(a) + (if part == "" then [] else [part]) + NonEmpty(b)
  {
    var all := a + [part] + b;
    if a == [] {
      assert all[1..] == b;
    } else {
      assert all[1..] == a[1..] + [part] + b;
      EmptyDropped(a[1..], part, b);
    }
  }
}

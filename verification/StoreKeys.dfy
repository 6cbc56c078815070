/** The cache keys of the store: `userCacheKey` and `getUserSettingCacheKey`. */
module StoreKeys {
  import opened Text

  lemma DigitsHaveNoSign(n: nat)
    ensures '-' !in Digits(n) && '+' !in Digits(n)
  {
  }

  function UserKey(id: int): string { Itoa(id) }

  /** Decimal text reads back as the number, so distinct numbers have distinct text. */
  lemma UserKeyInjective(a: int, b: int)
    requires UserKey(a) == UserKey(b)
    ensures a == b
  {
    var m, n := if a < 0 then -a else a, if b < 0 then -b else b;
    DigitsHaveNoSign(m);
    DigitsHaveNoSign(n);
    ValueOfDigits(m);
    ValueOfDigits(n);
    hide Value, Digits;
    assert a < 0 ==> Itoa(a)[0] == '-' && Itoa(a)[1..] == Digits(m);
    assert b < 0 ==> Itoa(b)[0] == '-' && Itoa(b)[1..] == Digits(n);
    assert a >= 0 ==> Itoa(a)[0] in Digits(m);
    assert b >= 0 ==> Itoa(b)[0] in Digits(n);
  }

  function SettingKey(user: int, key: string): string { Itoa(user) + "-" + key }

  lemma UnsignedPrefix(m: nat, a: string, n: nat, b: string)
    requires Digits(m) + "-" + a == Digits(n) + "-" + b
    ensures m == n && a == b
  {
    var s, t := Digits(m), Digits(n);
    DigitsHaveNoSign(m);
    DigitsHaveNoSign(n);
    hide Digits;
    var x, y := s + "-" + a, t + "-" + b;
    assert x[|s|] == '-' && y[|t|] == '-';
    assert forall i :: 0 <= i < |s| ==> x[i] == s[i];
    assert forall i :: 0 <= i < |t| ==> y[i] == t[i];
    assert |s| == |t|;
    assert x[..|s|] == s && y[..|t|] == t;
    assert x[|s| + 1..] == a && y[|t| + 1..] == b;
    ValueOfDigits(m);
    ValueOfDigits(n);
  }

  /** A key starts with a minus sign exactly for a negative id; the rest is unsigned. */
  lemma SignOfKey(u: int, j: string)
    ensures SettingKey(u, j) != "" && (u < 0 <==> SettingKey(u, j)[0] == '-')
    ensures (if u < 0 then SettingKey(u, j)[1..] else SettingKey(u, j)) == Digits(if u < 0 then -u else u) + "-" + j
  {
    var m := if u < 0 then -u else u;
    DigitsHaveNoSign(m);
    var d := Digits(m);
    hide Digits;
    if u < 0 {
      assert SettingKey(u, j) == "-" + (d + "-" + j);
    } else {
      assert SettingKey(u, j)[0] == d[0] && d[0] in d;
    }
  }

  /** The first hyphen after the digits separates the user id from the key, whatever the key is. */
  lemma SettingKeyInjective(u: int, j: string, v: int, k: string)
    requires SettingKey(u, j) == SettingKey(v, k)
    ensures u == v && j == k
  {
    var m, n := if u < 0 then -u else u, if v < 0 then -v else v;
    SignOfKey(u, j);
    SignOfKey(v, k);
    hide *;
    assert u < 0 <==> v < 0;
    UnsignedPrefix(m, j, n, k);
  }
}

/** The texts under which the store caches users and user settings. */
module CacheKeys {

  function DigitChar(d: nat): char
    requires d < 10
  {
    "0123456789"[d]
  }

  function DigitValue(c: char): int {
    c as int - '0' as int
  }

  function Digits(n: nat): (s: string)
    ensures |s| > 0 && forall c :: c in s ==> '0' <= c <= '9'
  {
    if n < 10 then [DigitChar(n)] else Digits(n / 10) + [DigitChar(n % 10)]
  }

  /** `strconv.Itoa`. */
  function Itoa(n: int): string {
    if n < 0 then "-" + Digits(-n) else Digits(n)
  }

  function DecimalValue(s: string): int {
    if |s| == 0 then 0 else DecimalValue(s[..|s| - 1]) * 10 + DigitValue(s[|s| - 1])
  }

  lemma {:induction false} DigitsDenote(n: nat)
    ensures DecimalValue(Digits(n)) == n
  {
    if n >= 10 {
      DigitsDenote(n / 10);
      assert Digits(n)[..|Digits(n)| - 1] == Digits(n / 10);
    } else {
      assert [DigitChar(n)][..0] == [];
    }
  }

  function Atoi(s: string): int {
    if |s| > 0 && s[0] == '-' then -DecimalValue(s[1..]) else DecimalValue(s)
  }

  lemma ItoaRoundTrip(n: int)
    ensures Atoi(Itoa(n)) == n
  {
    if n < 0 {
      DigitsDenote(-n);
      assert Itoa(n)[1..] == Digits(-n);
    } else {
      DigitsDenote(n);
      assert Digits(n)[0] in Digits(n);
    }
  }

  datatype SettingKey = Unspecified | General | Shortcuts | Webhooks | RefreshTokens | PersonalAccessTokens
  {
    function Name(): (s: string)
      ensures '-' !in s
    {
      match this
      case Unspecified => "KEY_UNSPECIFIED"
      case General => "GENERAL"
      case Shortcuts => "SHORTCUTS"
      case Webhooks => "WEBHOOKS"
      case RefreshTokens => "REFRESH_TOKENS"
      case PersonalAccessTokens => "PERSONAL_ACCESS_TOKENS"
    }
  }

  function UserKey(id: int): string { Itoa(id) }

  function SettingCacheKey(user: int, key: SettingKey): string {
    Itoa(user) + "-" + key.Name()
  }

  function BeforeLastDash(s: string): string {
    if |s| == 0 then []
    else if s[|s| - 1] == '-' then s[..|s| - 1]
    else BeforeLastDash(s[..|s| - 1])
  }

  lemma {:induction false} LastDashSplits(a: string, x: string)
    requires '-' !in x
    ensures BeforeLastDash(a + "-" + x) == a
    decreases |x|
  {
    var s := a + "-" + x;
    if |x| == 0 {
      assert s[..|s| - 1] == a;
    } else {
      var n := |x| - 1;
      LastDashSplits(a, x[..n]);
      assert s[..|s| - 1] == a + "-" + x[..n];
      assert s[|s| - 1] == x[n] && x[n] in x;
    }
  }

  /** No two settings share a cache entry, negative ids included. */
  lemma SettingCacheKeyIsInjective(user: int, key: SettingKey, user': int, key': SettingKey)
    requires SettingCacheKey(user, key) == SettingCacheKey(user', key')
    ensures user == user' && key == key'
  {
    LastDashSplits(Itoa(user), key.Name());
    LastDashSplits(Itoa(user'), key'.Name());
    ItoaRoundTrip(user);
    ItoaRoundTrip(user');
    assert key.Name() == SettingCacheKey(user, key)[|Itoa(user)| + 1..];
    NamesDiffer(key, key');
  }

  lemma NamesDiffer(key: SettingKey, key': SettingKey)
    requires key.Name() == key'.Name()
    ensures key == key'
  {
    assert |key.Name()| == |key'.Name()|;
  }
}

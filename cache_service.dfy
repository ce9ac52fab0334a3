/** The string form of a Guid, `Guid.ToString()`: 32 lower-case hexadecimal
    digits in groups of 8-4-4-4-12 joined by dashes. The Guid is taken as the
    128-bit number its string form spells. */
module GuidFormat {
  import opened Domain

  function Pow16(n: nat): (r: nat)
    ensures r > 0
  {
    if n == 0 then 1 else 16 * Pow16(n - 1)
  }

  /** The lower-case hexadecimal digit of `d`. */
  function HexDigit(d: nat): char
    requires d < 16
  {
    if d < 10 then ('0' as int + d) as char else ('a' as int + d - 10) as char
  }

  /** The value of a hexadecimal digit; any other character reads as zero. */
  function DigitValue(c: char): nat {
    if '0' <= c <= '9' then c as int - '0' as int
    else if 'a' <= c <= 'f' then c as int - 'a' as int + 10
    else if 'A' <= c <= 'F' then c as int - 'A' as int + 10
    else 0
  }

  /** `n` written with exactly `width` hexadecimal digits, most significant first. */
  function Hex(n: nat, width: nat): (s: string)
    requires n < Pow16(width)
    ensures |s| == width
  {
    if width == 0 then "" else Hex(n / 16, width - 1) + [HexDigit(n % 16)]
  }

  /** The number a string of hexadecimal digits spells. */
  function HexValue(s: string): nat {
    if s == [] then 0 else HexValue(s[..|s| - 1]) * 16 + DigitValue(s[|s| - 1])
  }

  /** The "D" format: dashes after the 8th, 12th, 16th and 20th digit. */
  function Dashed(h: string): (s: string)
    requires |h| == 32
    ensures |s| == 36
  {
    h[..8] + "-" + h[8..12] + "-" + h[12..16] + "-" + h[16..20] + "-" + h[20..]
  }

  /** The digits of a 36-character "D" string, without its dashes. */
  function Undashed(s: string): (h: string)
    requires |s| == 36
    ensures |h| == 32
  {
    s[..8] + s[9..13] + s[14..18] + s[19..23] + s[24..]
  }

  lemma {:induction false} Pow16Add(a: nat, b: nat)
    ensures Pow16(a + b) == Pow16(a) * Pow16(b)
  {
    if a > 0 {
      Pow16Add(a - 1, b);
      assert Pow16(a + b) == 16 * (Pow16(a - 1) * Pow16(b));
    }
  }

  /** Thirty-two hexadecimal digits hold exactly the 128-bit numbers. */
  lemma GuidWidth()
    ensures Pow16(32) == 0x1_0000_0000_0000_0000_0000_0000_0000_0000
  {
    assert Pow16(4) == 0x1_0000;
    Pow16Add(4, 4);
    Pow16Add(8, 8);
    Pow16Add(16, 16);
  }

  /** `Guid.ToString()`. */
  function GuidString(g: Guid): (s: string)
    ensures |s| == 36
  {
    GuidWidth();
    Dashed(Hex(g, 32))
  }

  lemma DigitRoundTrip(d: nat)
    requires d < 16
    ensures DigitValue(HexDigit(d)) == d
  {
  }

  /** Reading back the digits `Hex` writes gives the number. */
  lemma {:induction false} HexRoundTrip(n: nat, width: nat)
    requires n < Pow16(width)
    ensures HexValue(Hex(n, width)) == n
  {
    if width > 0 {
      var s := Hex(n, width);
      assert s[..|s| - 1] == Hex(n / 16, width - 1);
      HexRoundTrip(n / 16, width - 1);
      DigitRoundTrip(n % 16);
    }
  }

  lemma UndashedDashed(h: string)
    requires |h| == 32
    ensures Undashed(Dashed(h)) == h
  {
    var s := Dashed(h);
    assert s[..8] == h[..8];
    assert s[9..13] == h[8..12];
    assert s[14..18] == h[12..16];
    assert s[19..23] == h[16..20];
    assert s[24..] == h[20..];
    assert h == h[..8] + h[8..12] + h[12..16] + h[16..20] + h[20..];
  }

  /** The string form determines the Guid: its digits read back to it. */
  lemma GuidStringRoundTrip(g: Guid)
    ensures HexValue(Undashed(GuidString(g))) == g
  {
    GuidWidth();
    UndashedDashed(Hex(g, 32));
    HexRoundTrip(g, 32);
  }

  /** Distinct Guids have distinct string forms. */
  lemma GuidStringInjective(a: Guid, b: Guid)
    ensures GuidString(a) == GuidString(b) <==> a == b
  {
    GuidStringRoundTrip(a);
    GuidStringRoundTrip(b);
  }
}

/** The Redis-backed cache: values are stored as JSON strings under the string
    form of their key, each with the configured time to live. */
module Caching {
  import opened Wrappers
  import opened Text
  import opened Domain
  import opened GuidFormat

  /** The keys the services cache under: a Guid or a string. */
  datatype CacheKey = GuidKey(id: Guid) | TextKey(text: string)

  /** `key.ToString()`, the Redis key an entry lives under. */
  function KeyString(key: CacheKey): string {
    match key
    case GuidKey(id) => GuidString(id)
    case TextKey(text) => text
  }

  /** A stored JSON string and the instant its time to live runs out. */
  datatype Entry = Entry(json: string, expiresAt: int)

  /** The JSON conversion pair: every value serializes to a non-blank string
      that deserializes back to the value. */
  ghost predicate RoundTrips<T(!new)>(encode: T -> string, decode: string -> Option<T>) {
    forall v :: !IsBlank(encode(v)) && decode(encode(v)) == Some(v)
  }

  /** Whether the key has an entry that has not expired at `now`. */
  predicate Live(entries: map<string, Entry>, key: CacheKey, now: int) {
    KeyString(key) in entries && now < entries[KeyString(key)].expiresAt
  }

  /** `GetAsync`: the default (`None`) for a missing or expired entry; a blank
      JSON string is rejected as null input, and one that does not deserialize
      to a value raises a serialization error. */
  function GetSpec<T>(decode: string -> Option<T>, entries: map<string, Entry>, key: CacheKey, now: int)
    : Result<Option<T>, Failure>
  {
    if !Live(entries, key, now) then Success(None)
    else
      var json := entries[KeyString(key)].json;
      if IsBlank(json) then Failure(InvalidArgument)
      else match decode(json)
        case None => Failure(SerializationFailure)
        case Some(v) => Success(Some(v))
  }

  /** `SetAsync`: the value's JSON under the key's string, replacing any entry,
      living for `lifetime` from `now`. */
  function SetSpec<T>(encode: T -> string, lifetime: int, entries: map<string, Entry>, key: CacheKey, value: T, now: int)
    : map<string, Entry>
  {
    entries[KeyString(key) := Entry(encode(value), now + lifetime)]
  }

  /** `DeleteAsync`: the key's entry is gone; a missing key is no error. */
  function DeleteSpec(entries: map<string, Entry>, key: CacheKey): map<string, Entry> {
    entries - {KeyString(key)}
  }

  /** The outcome of `WrapCacheOperationsAsync`: the result, the new entries,
      and how often it called the delegate and wrote the cache. */
  datatype Wrapped<T> = Wrapped(result: Result<Option<T>, Failure>, entries: map<string, Entry>, delegateCalls: nat, writes: nat)

  /** `WrapCacheOperationsAsync`: a cached value (or a failure to read it) is
      returned as it is; otherwise the delegate is called, and a value it
      produces is cached before it is returned. */
  function WrapSpec<T>(encode: T -> string, decode: string -> Option<T>, lifetime: int, entries: map<string, Entry>,
                       key: CacheKey, produce: () -> Option<T>, now: int): Wrapped<T>
  {
    var got := GetSpec(decode, entries, key, now);
    if got.Failure? || got.value.Some? then Wrapped(got, entries, 0, 0)
    else match produce()
      case None => Wrapped(Success(None), entries, 1, 0)
      case Some(v) => Wrapped(Success(Some(v)), SetSpec(encode, lifetime, entries, key, v, now), 1, 1)
  }

  /** The cache service over one Redis database. `lifetime` is the time to
      live parsed from the settings; `encode` and `decode` are the JSON
      conversions of the cached type; the ghost counters record the calls
      of delegates and the writes to Redis. */
  class CacheService<T> {
    const lifetime: int
    const encode: T -> string
    const decode: string -> Option<T>
    var entries: map<string, Entry>
    ghost var delegateCalls: nat
    ghost var writes: nat

    constructor(lifetime: int, encode: T -> string, decode: string -> Option<T>, entries: map<string, Entry>)
      ensures this.lifetime == lifetime && this.encode == encode && this.decode == decode
      ensures this.entries == entries && delegateCalls == 0 && writes == 0
    {
      this.lifetime := lifetime;
      this.encode := encode;
      this.decode := decode;
      this.entries := entries;
      delegateCalls := 0;
      writes := 0;
    }

    method Get(key: CacheKey, now: int) returns (r: Result<Option<T>, Failure>)
      ensures r == GetSpec(decode, entries, key, now)
    {
      var keyString := KeyString(key);
      if keyString !in entries || entries[keyString].expiresAt <= now {
        return Success(None);
      }
      var json := entries[keyString].json;
      if IsBlank(json) {
        return Failure(InvalidArgument);
      }
      var instance := decode(json);
      if instance.None? {
        return Failure(SerializationFailure);
      }
      return Success(Some(instance.value));
    }

    method Set(key: CacheKey, value: T, now: int)
      modifies this
      ensures entries == SetSpec(encode, lifetime, old(entries), key, value, now)
      ensures writes == old(writes) + 1 && delegateCalls == old(delegateCalls)
    {
      var keyString := KeyString(key);
      var json := encode(value);
      entries := entries[keyString := Entry(json, now + lifetime)];
      writes := writes + 1;
    }

    method Delete(key: CacheKey)
      modifies this
      ensures entries == DeleteSpec(old(entries), key)
      ensures writes == old(writes) && delegateCalls == old(delegateCalls)
    {
      var keyString := KeyString(key);
      entries := entries - {keyString};
    }

    /** `WrapCacheOperationsAsync` with `produce` as the delegate. */
    method Wrap(key: CacheKey, produce: () -> Option<T>, now: int) returns (r: Result<Option<T>, Failure>)
      modifies this
      ensures var w := WrapSpec(encode, decode, lifetime, old(entries), key, produce, now);
        r == w.result && entries == w.entries
        && delegateCalls == old(delegateCalls) + w.delegateCalls && writes == old(writes) + w.writes
    {
      var gotCache := Get(key, now);
      if gotCache.Failure? || gotCache.value.Some? {
        return gotCache;
      }
      delegateCalls := delegateCalls + 1;
      var resultForCache := produce();
      if resultForCache.None? {
        return Success(None);
      }
      Set(key, resultForCache.value, now);
      return Success(resultForCache);
    }
  }

  // ---- properties of the cache ----

  /** A value set is read back, under the same key, until its time to live
      runs out, and is gone afterwards. */
  lemma SetThenGet<T(!new)>(encode: T -> string, decode: string -> Option<T>, lifetime: int, entries: map<string, Entry>,
                      key: CacheKey, value: T, setAt: int, now: int)
    requires RoundTrips(encode, decode)
    ensures now < setAt + lifetime
      ==> GetSpec(decode, SetSpec(encode, lifetime, entries, key, value, setAt), key, now) == Success(Some(value))
    ensures now >= setAt + lifetime
      ==> GetSpec(decode, SetSpec(encode, lifetime, entries, key, value, setAt), key, now) == Success(None)
  {
  }

  /** Setting or deleting one key leaves what every other key reads unchanged. */
  lemma OtherKeysUntouched<T>(encode: T -> string, decode: string -> Option<T>, lifetime: int,
                              entries: map<string, Entry>, key: CacheKey, other: CacheKey, value: T, now: int, at: int)
    requires KeyString(other) != KeyString(key)
    ensures GetSpec(decode, SetSpec(encode, lifetime, entries, key, value, now), other, at) == GetSpec(decode, entries, other, at)
    ensures GetSpec(decode, DeleteSpec(entries, key), other, at) == GetSpec(decode, entries, other, at)
  {
  }

  /** After a delete the key reads as missing; deleting a missing key changes
      nothing. */
  lemma DeleteThenGet<T>(decode: string -> Option<T>, entries: map<string, Entry>, key: CacheKey, now: int)
    ensures GetSpec(decode, DeleteSpec(entries, key), key, now) == Success(None)
    ensures KeyString(key) !in entries ==> DeleteSpec(entries, key) == entries
  {
  }

  /** A Guid key and its string form address the same entry, and distinct
      Guids address distinct entries. */
  lemma GuidKeys(g: Guid, h: Guid)
    ensures KeyString(GuidKey(g)) == KeyString(TextKey(GuidString(g)))
    ensures KeyString(GuidKey(g)) == KeyString(GuidKey(h)) <==> g == h
  {
    GuidStringInjective(g, h);
  }

  /** A cached value is returned without calling the delegate or writing. */
  lemma WrapHit<T>(encode: T -> string, decode: string -> Option<T>, lifetime: int, entries: map<string, Entry>,
                   key: CacheKey, produce: () -> Option<T>, now: int)
    requires GetSpec(decode, entries, key, now).Success? && GetSpec(decode, entries, key, now).value.Some?
    ensures WrapSpec(encode, decode, lifetime, entries, key, produce, now)
         == Wrapped(GetSpec(decode, entries, key, now), entries, 0, 0)
  {
  }

  /** On a miss the delegate is called exactly once; its absent result is
      returned without a write, and its value is written once, returned, and
      read back from the cache until the time to live runs out. */
  lemma WrapMiss<T(!new)>(encode: T -> string, decode: string -> Option<T>, lifetime: int, entries: map<string, Entry>,
                    key: CacheKey, produce: () -> Option<T>, now: int, later: int)
    requires RoundTrips(encode, decode)
    requires !Live(entries, key, now)
    ensures var w := WrapSpec(encode, decode, lifetime, entries, key, produce, now);
      w.delegateCalls == 1 && w.result == Success(produce())
      && (produce().None? ==> w.writes == 0 && w.entries == entries)
      && (produce().Some? ==>
            w.writes == 1 && (later < now + lifetime ==> GetSpec(decode, w.entries, key, later) == Success(produce())))
  {
    if produce().Some? {
      SetThenGet(encode, decode, lifetime, entries, key, produce().value, now, later);
    }
  }

  /** Two wraps of one key within the time to live: the second returns what
      the first produced, without calling its own delegate or writing. */
  lemma WrapTwice<T(!new)>(encode: T -> string, decode: string -> Option<T>, lifetime: int, entries: map<string, Entry>,
                     key: CacheKey, first: () -> Option<T>, second: () -> Option<T>, now: int, later: int)
    requires RoundTrips(encode, decode)
    requires !Live(entries, key, now) && first().Some? && later < now + lifetime
    ensures var w1 := WrapSpec(encode, decode, lifetime, entries, key, first, now);
      var w2 := WrapSpec(encode, decode, lifetime, w1.entries, key, second, later);
      w2 == Wrapped(Success(first()), w1.entries, 0, 0)
  {
    var w1 := WrapSpec(encode, decode, lifetime, entries, key, first, now);
    WrapMiss(encode, decode, lifetime, entries, key, first, now, later);
    WrapHit(encode, decode, lifetime, w1.entries, key, second, later);
  }
}

/** Wallet addresses (wallet/wallet.go): "Dexm", two shard digits, base-58 body, eight checksum digits. */
module Address {
  import opened Base58
  import opened Overflow
  import opened Wrappers

  type Digest160 = s: seq<Byte> | |s| == 20 witness seq(20, _ => 0)

  /** RIPEMD-160 of SHA-256, and CRC-32, as arbitrary functions of the right output size. */
  datatype Hashes = Hashes(ripemd: seq<Byte> -> Digest160, crc32: string -> U32)

  const HEX_UPPER := "0123456789ABCDEF"

  /** Go's %0wX. */
  function Hex(n: nat, width: nat): (s: string)
    ensures |s| == width
    ensures forall k :: 0 <= k < width ==> '0' <= s[k] <= '9' || 'A' <= s[k] <= 'F'
  {
    if width == 0 then "" else Hex(n / 16, width - 1) + [HEX_UPPER[n % 16]]
  }

  function HexDigit(c: char): Option<nat> {
    if '0' <= c <= '9' then Some(c as nat - '0' as nat)
    else if 'A' <= c <= 'F' then Some(c as nat - 'A' as nat + 10)
    else if 'a' <= c <= 'f' then Some(c as nat - 'a' as nat + 10)
    else None
  }

  /** Go's strconv.ParseUint(s, 16, 32) for texts too short to overflow. */
  function ParseHex(s: string): Option<nat> {
    if s == "" then None
    else if |s| == 1 then HexDigit(s[0])
    else
      match (ParseHex(s[..|s| - 1]), HexDigit(s[|s| - 1]))
      case (Some(n), Some(d)) => Some(16 * n + d)
      case _ => None
  }

  function BytesToAddress(h: Hashes, data: seq<Byte>, shard: U32): string {
    var mainWal := Encode(h.ripemd(data));
    "Dexm" + Hex(shard % 256, 2) + mainWal + Hex(h.crc32(mainWal), 8)
  }

  predicate IsWalletValid(h: Hashes, wallet: string) {
    if wallet == "DexmVoid" || wallet == "DexmPoS" then true
    else if |wallet| < 30 then false
    else Hex(h.crc32(wallet[6..|wallet| - 8]), 8) == wallet[|wallet| - 8..]
  }

  /** Go panics on texts shorter than six bytes; every caller has checked the wallet first. */
  function GetShardFromAddress(w: string): Option<nat>
    requires 6 <= |w|
  {
    ParseHex(w[4..6])
  }

  lemma HexDigitRead(d: nat)
    requires d < 16
    ensures HexDigit(HEX_UPPER[d]) == Some(d)
  {
    assert HEX_UPPER[d] == if d < 10 then ('0' as nat + d) as char else ('A' as nat + d - 10) as char;
  }

  lemma ParseWithDigit(s: string, n: nat, d: nat)
    requires s != "" && d < 16 && ParseHex(s) == Some(n)
    ensures ParseHex(s + [HEX_UPPER[d]]) == Some(16 * n + d)
  {
    HexDigitRead(d);
    hide HexDigit;
    var t := s + [HEX_UPPER[d]];
    assert t[..|t| - 1] == s;
  }

  lemma {:induction false} HexRead(n: nat, width: nat)
    requires 0 < width && n < Radix.Pow(16, width)
    ensures ParseHex(Hex(n, width)) == Some(n)
    decreases width
  {
    if width == 1 {
      hide HexDigit;
      assert Radix.Pow(16, 1) == 16 * Radix.Pow(16, 0) == 16;
      assert Hex(n, 1) == [HEX_UPPER[n]];
      HexDigitRead(n);
    } else {
      hide HexDigit, ParseHex;
      HexRead(n / 16, width - 1);
      ParseWithDigit(Hex(n / 16, width - 1), n / 16, n % 16);
    }
  }

  /** Where the parts of an address are. */
  lemma AddressParts(h: Hashes, data: seq<Byte>, shard: U32)
    ensures var w := BytesToAddress(h, data, shard);
            && 34 <= |w|
            && w[..4] == "Dexm" && w[4..6] == Hex(shard % 256, 2)
            && w[6..|w| - 8] == Encode(h.ripemd(data))
            && w[|w| - 8..] == Hex(h.crc32(Encode(h.ripemd(data))), 8)
  {
    EncodeLength(h.ripemd(data));
  }

  /**
    * Every address the node builds is accepted by its own check, gives back its shard modulo 256,
    * and is neither of the two reserved names.
    */
  lemma AddressWellFormed(h: Hashes, data: seq<Byte>, shard: U32)
    ensures var w := BytesToAddress(h, data, shard);
            && 34 <= |w|
            && IsWalletValid(h, w)
            && GetShardFromAddress(w) == Some(shard % 256)
            && w != "DexmPoS" && w != "DexmVoid"
  {
    AddressParts(h, data, shard);
    HexRead(shard % 256, 2) by {
      assert Radix.Pow(16, 2) == 16 * Radix.Pow(16, 1) && Radix.Pow(16, 1) == 16 * Radix.Pow(16, 0);
    }
  }

  /** Two keys share an address exactly when they share the digest and the shard modulo 256. */
  lemma AddressIdentity(h: Hashes, a: seq<Byte>, s: U32, b: seq<Byte>, t: U32)
    ensures BytesToAddress(h, a, s) == BytesToAddress(h, b, t)
            <==> h.ripemd(a) == h.ripemd(b) && s % 256 == t % 256
  {
    var v, w := BytesToAddress(h, a, s), BytesToAddress(h, b, t);
    if v == w {
      AddressParts(h, a, s);
      AddressParts(h, b, t);
      AddressWellFormed(h, a, s);
      AddressWellFormed(h, b, t);
      EncodeInjective(h.ripemd(a), h.ripemd(b));
    }
  }

  /** The checksum leaves the first six characters out: a valid long address stays valid under any header. */
  lemma HeaderUnchecked(h: Hashes, w: string, header: string)
    requires 30 <= |w| && |header| == 6
    ensures IsWalletValid(h, header + w[6..]) == IsWalletValid(h, w)
  {
    var v := header + w[6..];
    assert v[6..|v| - 8] == w[6..|w| - 8] && v[|v| - 8..] == w[|w| - 8..];
  }

  /** A text of 30 characters or more is valid exactly when it ends in the checksum of its middle. */
  lemma ChecksumIsCheckedIff(h: Hashes, header: string, body: string, tail: string)
    requires |header| == 6 && 16 <= |body| && |tail| == 8
    ensures IsWalletValid(h, header + body + tail) <==> tail == Hex(h.crc32(body), 8)
  {
    var w := header + body + tail;
    assert w[6..|w| - 8] == body && w[|w| - 8..] == tail;
  }

  /** Shorter texts are refused, but for the two reserved names. */
  lemma ShortIsRefused(h: Hashes, w: string)
    requires |w| < 30
    ensures IsWalletValid(h, w) <==> w == "DexmVoid" || w == "DexmPoS"
  {
  }

  /** An address with any other last eight characters is refused. */
  lemma WrongChecksumIsRefused(h: Hashes, data: seq<Byte>, shard: U32, tail: string)
    requires |tail| == 8
    ensures var w := BytesToAddress(h, data, shard);
            IsWalletValid(h, w[..|w| - 8] + tail) <==> tail == w[|w| - 8..]
  {
    var w := BytesToAddress(h, data, shard);
    AddressParts(h, data, shard);
    EncodeLength(h.ripemd(data));
    hide BytesToAddress;
    var header, body := w[..6], w[6..|w| - 8];
    assert w[..|w| - 8] + tail == header + body + tail;
    ChecksumIsCheckedIff(h, header, body, tail);
  }

  /** Hexadecimal digits of either case are read, and nothing else is. */
  lemma HexDigitIff(c: char)
    ensures HexDigit(c).Some? <==> '0' <= c <= '9' || 'A' <= c <= 'F' || 'a' <= c <= 'f'
    ensures 'a' <= c <= 'f' ==> HexDigit(c) == HexDigit((c as int - 32) as char)
    ensures HexDigit(c).Some? ==> HexDigit(c).value < 16
  {
  }

  /** The shard is the fifth and sixth character as a hexadecimal number, an error if they are none. */
  lemma ShardReadIff(w: string, shard: nat)
    requires 6 <= |w|
    ensures GetShardFromAddress(w) == Some(shard) <==>
            && HexDigit(w[4]).Some? && HexDigit(w[5]).Some?
            && shard == 16 * HexDigit(w[4]).value + HexDigit(w[5]).value
  {
    var s := w[4..6];
    assert s[..|s| - 1] == [w[4]] && s[1] == w[5];
    assert ParseHex([w[4]]) == HexDigit(w[4]);
  }
}

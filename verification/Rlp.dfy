/** RLP item headers as in Appendix B of the Ethereum Yellow Paper, and the header reader `PayloadInfo`
    of `Parity4MCIP8-parity195/util/rlp/src/untrusted_rlp.rs`. */
module Rlp {

  type byte = b: int | 0 <= b < 256

  datatype DecoderError = RlpIsTooShort | RlpDataLenWithZeroPrefix | RlpInvalidIndirection | RlpIsTooBig
  datatype Result<T> = Ok(value: T) | Err(error: DecoderError)

  /** Length of an item's header and of its payload. */
  datatype PayloadInfo = PayloadInfo(headerLen: nat, valueLen: nat) {
    function Total(): nat { headerLen + valueLen }
  }

  // ---------- big-endian lengths ----------

  function BigEndian(n: nat): seq<byte> {
    if n == 0 then [] else BigEndian(n / 256) + [n % 256]
  }

  function FromBigEndian(s: seq<byte>): nat {
    if s == [] then 0 else FromBigEndian(s[..|s| - 1]) * 256 + s[|s| - 1]
  }

  function Pow256(k: nat): (r: nat)
    ensures r >= 1
  {
    if k == 0 then 1 else Pow256(k - 1) * 256
  }

  lemma {:induction false} BigEndianRoundTrip(n: nat)
    ensures FromBigEndian(BigEndian(n)) == n
    ensures n > 0 ==> |BigEndian(n)| > 0 && BigEndian(n)[0] != 0
  {
    if n > 0 {
      BigEndianRoundTrip(n / 256);
      assert BigEndian(n)[..|BigEndian(n)| - 1] == BigEndian(n / 256);
    }
  }

  lemma {:induction false} BigEndianLength(n: nat, k: nat)
    ensures |BigEndian(n)| <= k <==> n < Pow256(k)
    decreases k
  {
    if n > 0 && k > 0 {
      BigEndianLength(n / 256, k - 1);
    }
  }

  /** The accumulation loop of `decode_usize`. */
  method DecodeUsize(bytes: seq<byte>) returns (r: Result<nat>)
    requires bytes != []
    ensures r == UsizeOf(bytes)
    ensures r == if |bytes| > 8 then Err(RlpIsTooBig) else if bytes[0] == 0 then Err(RlpInvalidIndirection)
                 else Ok(FromBigEndian(bytes))
  {
    if |bytes| > 8 {
      return Err(RlpIsTooBig);
    }
    if bytes[0] == 0 {
      return Err(RlpInvalidIndirection);
    }
    var res := 0;
    assert FromBigEndian(bytes[..0]) == 0 && Pow256(0) == 1;
    hide FromBigEndian, Pow256;
    for i := 0 to |bytes|
      invariant res == FromBigEndian(bytes[..i]) * Pow256(|bytes| - i)
    {
      ShiftStep(bytes, i);
      res := res + bytes[i] * Pow256(|bytes| - 1 - i);
    }
    assert bytes[..|bytes|] == bytes;
    r := Ok(res);
  }

  /** Adding the next byte at its shift. */
  lemma ShiftStep(bytes: seq<byte>, i: nat)
    requires i < |bytes|
    ensures FromBigEndian(bytes[..i]) * Pow256(|bytes| - i) + bytes[i] * Pow256(|bytes| - 1 - i) ==
            FromBigEndian(bytes[..i + 1]) * Pow256(|bytes| - (i + 1))
  {
    assert bytes[..i + 1][..i] == bytes[..i];
    var f, p := FromBigEndian(bytes[..i]), Pow256(|bytes| - 1 - i);
    assert Pow256(|bytes| - i) == p * 256;
    Distribute(f, bytes[i], p);
  }

  lemma Distribute(f: nat, b: nat, p: nat)
    ensures f * (p * 256) + b * p == (f * 256 + b) * p
  {
  }

  function UsizeOf(bytes: seq<byte>): Result<nat>
    requires bytes != []
  {
    if |bytes| > 8 then Err(RlpIsTooBig)
    else if bytes[0] == 0 then Err(RlpInvalidIndirection)
    else Ok(FromBigEndian(bytes))
  }

  function LongInfo(header: seq<byte>, lenOfLen: nat): Result<PayloadInfo>
    requires lenOfLen > 0
  {
    if |header| < 2 then Err(RlpIsTooShort)
    else if header[1] == 0 then Err(RlpDataLenWithZeroPrefix)
    else if |header| < 1 + lenOfLen then Err(RlpIsTooShort)
    else
      match UsizeOf(header[1..1 + lenOfLen])
      case Err(e) => Err(e)
      case Ok(n) => Ok(PayloadInfo(1 + lenOfLen, n))
  }

  /** Number of length bytes after a leading byte: none for short strings and lists and single bytes. */
  function LengthBytes(l: byte): nat {
    if 0xb8 <= l <= 0xbf then l - 0xb7 else if l >= 0xf8 then l - 0xf7 else 0
  }

  /** `PayloadInfo::from`. A header is readable exactly when its length bytes are there and do not start with zero; the
      only errors are the missing bytes and the zero, and an item is never empty. */
  function InfoFrom(header: seq<byte>): (r: Result<PayloadInfo>)
    ensures r.Ok? <==> header != [] && |header| >= 1 + LengthBytes(header[0]) &&
                       (LengthBytes(header[0]) > 0 ==> header[1] != 0)
    ensures r == Err(RlpDataLenWithZeroPrefix) <==> |header| >= 2 && LengthBytes(header[0]) > 0 && header[1] == 0
    ensures r.Err? ==> r.error == RlpIsTooShort || r.error == RlpDataLenWithZeroPrefix
    ensures r.Ok? ==> r.value.Total() > 0
  {
    if header == [] then Err(RlpIsTooShort)
    else
      var l := header[0];
      if l <= 0x7f then Ok(PayloadInfo(0, 1))
      else if l <= 0xb7 then Ok(PayloadInfo(1, l - 0x80))
      else if l <= 0xbf then LongInfo(header, l - 0xb7)
      else if l <= 0xf7 then Ok(PayloadInfo(1, l - 0xc0))
      else LongInfo(header, l - 0xf7)
  }

  // ---------- list items ----------

  ghost predicate Encodable(n: nat) { n < Pow256(8) }

  /** The Yellow Paper header of a list with `n` payload bytes. */
  ghost function ListHeader(n: nat): (r: seq<byte>)
    requires Encodable(n)
    ensures |r| >= 1
  {
    BigEndianLength(n, 8);
    if n <= 55 then [0xc0 + n] else [0xf7 + |BigEndian(n)|] + BigEndian(n)
  }

  ghost function ListItem(payload: seq<byte>): (r: seq<byte>)
    requires Encodable(|payload|)
    ensures |r| >= 1
  {
    ListHeader(|payload|) + payload
  }

  /** A header is read back exactly, whatever follows it. */
  lemma {:induction false} HeaderReadsBack(n: nat, tail: seq<byte>)
    requires Encodable(n)
    ensures InfoFrom(ListHeader(n) + tail) == Ok(PayloadInfo(|ListHeader(n)|, n))
  {
    if n > 55 {
      assert |ListHeader(n)| > 1 by { BigEndianRoundTrip(n); }
      LongHeader(n);
      var digits := BigEndian(n);
      var bytes := ListHeader(n) + tail;
      assert bytes[1..1 + |digits|] == digits && bytes[1] == digits[0];
      InfoOfLongList(bytes, |digits|);
      hide InfoFrom, FromBigEndian, ListHeader, BigEndian;
    }
  }

  /** The Yellow Paper header of a string of `n` bytes that is not a single byte below 0x80. */
  ghost function StringHeader(n: nat): (r: seq<byte>)
    requires Encodable(n)
    ensures |r| >= 1
  {
    BigEndianLength(n, 8);
    if n <= 55 then [0x80 + n] else [0xb7 + |BigEndian(n)|] + BigEndian(n)
  }

  /** String headers are read back as well, and a byte below 0x80 is its own item. */
  lemma {:induction false} StringHeaderReadsBack(n: nat, b: byte, tail: seq<byte>)
    requires Encodable(n)
    ensures InfoFrom(StringHeader(n) + tail) == Ok(PayloadInfo(|StringHeader(n)|, n))
    ensures b < 0x80 ==> InfoFrom([b] + tail) == Ok(PayloadInfo(0, 1))
  {
    if n > 55 {
      var digits := BigEndian(n);
      BigEndianLength(n, 8);
      BigEndianRoundTrip(n);
      var bytes := StringHeader(n) + tail;
      assert bytes[1..1 + |digits|] == digits && bytes[1] == digits[0];
    }
  }

  /** A list header has at most 8 bytes exactly when the payload is below 2^56; the first 8 of 9 bytes are refused. */
  lemma {:induction false} HeaderLength(n: nat, front: seq<byte>)
    requires Encodable(n)
    ensures |ListHeader(n)| <= 8 <==> n < Pow256(7)
    ensures n >= Pow256(7) && |front| == 8 && front <= ListHeader(n) ==> InfoFrom(front) == Err(RlpIsTooShort)
  {
    BigEndianLength(n, 8);
    BigEndianLength(n, 7);
    BigEndianRoundTrip(n);
    SmallPowers();
    if n >= Pow256(7) && |front| == 8 && front <= ListHeader(n) {
      assert front[0] == 0xff && front[1] == BigEndian(n)[0];
    }
  }

  function Zeros(n: nat): (r: seq<byte>)
    ensures |r| == n && forall i :: 0 <= i < n ==> r[i] == 0
  {
    if n == 0 then [] else Zeros(n - 1) + [0]
  }

  /** A big-endian number whose last bytes are replaced by zeros is smaller, unless they were zeros. */
  lemma {:induction false} ZeroedTail(s: seq<byte>, m: nat)
    requires m <= |s|
    ensures var v := FromBigEndian(s[..m] + Zeros(|s| - m));
            v <= FromBigEndian(s) && (v == FromBigEndian(s) <==> forall j :: m <= j < |s| ==> s[j] == 0)
  {
    if m == |s| {
      assert s[..m] + Zeros(0) == s;
    } else {
      var front := s[..|s| - 1];
      ZeroedTail(front, m);
      var t := s[..m] + Zeros(|s| - m);
      assert t[..|t| - 1] == front[..m] + Zeros(|front| - m);
      assert t[|t| - 1] == 0;
      assert FromBigEndian(t) == FromBigEndian(t[..|t| - 1]) * 256;
      assert FromBigEndian(s) == FromBigEndian(front) * 256 + s[|s| - 1];
      hide FromBigEndian, Zeros;
      assert forall j :: m <= j < |front| ==> front[j] == s[j];
    }
  }

  /** A header of which only the first `m` bytes are read and the others are taken as zeros: the length comes out too
      small unless those bytes are zeros, and a lost first length byte is refused. */
  lemma {:induction false} TruncatedHeader(n: nat, m: nat, buffer: seq<byte>)
    requires Encodable(n) && 1 <= m < |ListHeader(n)| <= |buffer|
    requires buffer[..|ListHeader(n)|] == ListHeader(n)[..m] + Zeros(|ListHeader(n)| - m)
    ensures m == 1 ==> InfoFrom(buffer) == Err(RlpDataLenWithZeroPrefix)
    ensures m >= 2 ==>
              && InfoFrom(buffer).Ok? && InfoFrom(buffer).value.headerLen == |ListHeader(n)|
              && InfoFrom(buffer).value.valueLen <= n
              && (InfoFrom(buffer).value.valueLen == n <==>
                  forall j :: m <= j < |ListHeader(n)| ==> ListHeader(n)[j] == 0)
  {
    LongHeader(n);
    var digits := BigEndian(n);
    hide FromBigEndian, BigEndian, ListHeader, InfoFrom, Zeros;
    if m == 1 {
      LostLength(digits, ListHeader(n), buffer);
    } else {
      CutLength(digits, ListHeader(n), m, buffer);
      SameZeros(digits, ListHeader(n), m);
    }
  }

  lemma LostLength(digits: seq<byte>, h: seq<byte>, buffer: seq<byte>)
    requires 1 <= |digits| <= 8 && h == [0xf7 + |digits|] + digits && |h| <= |buffer|
    requires buffer[..|h|] == h[..1] + Zeros(|h| - 1)
    ensures InfoFrom(buffer) == Err(RlpDataLenWithZeroPrefix)
  {
    var shown := buffer[..|h|];
    assert buffer[0] == shown[0] == h[0] && buffer[1] == shown[1] == 0;
  }

  lemma CutLength(digits: seq<byte>, h: seq<byte>, m: nat, buffer: seq<byte>)
    requires 1 <= |digits| <= 8 && digits[0] != 0 && h == [0xf7 + |digits|] + digits && 2 <= m < |h| <= |buffer|
    requires buffer[..|h|] == h[..m] + Zeros(|h| - m)
    ensures var v := FromBigEndian(digits[..m - 1] + Zeros(|digits| - (m - 1)));
            && InfoFrom(buffer) == Ok(PayloadInfo(|h|, v)) && v <= FromBigEndian(digits)
            && (v == FromBigEndian(digits) <==> forall j :: m - 1 <= j < |digits| ==> digits[j] == 0)
  {
    hide InfoFrom, FromBigEndian, Zeros;
    ShownDigits(digits, h, m, buffer);
    var shown := buffer[..|h|];
    assert buffer[0] == shown[0] == h[0] && buffer[1] == shown[1] == h[1] == digits[0];
    InfoOfLongList(buffer, |digits|);
    ZeroedTail(digits, m - 1);
  }

  lemma SameZeros(digits: seq<byte>, h: seq<byte>, m: nat)
    requires |h| == 1 + |digits| && h[1..] == digits && 1 <= m
    ensures (forall j :: m - 1 <= j < |digits| ==> digits[j] == 0) <==> forall j :: m <= j < |h| ==> h[j] == 0
  {
    assert forall j :: 0 <= j < |digits| ==> digits[j] == h[j + 1];
    assert forall j :: 1 <= j < |h| ==> h[j] == digits[j - 1];
  }

  lemma ShownDigits(digits: seq<byte>, h: seq<byte>, m: nat, buffer: seq<byte>)
    requires |h| == 1 + |digits| && h[1..] == digits && 2 <= m < |h| <= |buffer|
    requires buffer[..|h|] == h[..m] + Zeros(|h| - m)
    ensures buffer[1..1 + |digits|] == digits[..m - 1] + Zeros(|digits| - (m - 1))
  {
    hide Zeros;
    var shown := buffer[..|h|];
    assert forall i :: 1 <= i < |h| ==> buffer[i] == shown[i];
    assert forall i :: 1 <= i < m ==> shown[i] == h[i] == digits[i - 1];
  }

  lemma LongHeader(n: nat)
    requires Encodable(n) && |ListHeader(n)| > 1
    ensures 1 <= |BigEndian(n)| <= 8 && FromBigEndian(BigEndian(n)) == n && BigEndian(n)[0] != 0
    ensures ListHeader(n) == [0xf7 + |BigEndian(n)|] + BigEndian(n)
  {
    BigEndianLength(n, 8);
    BigEndianRoundTrip(n);
  }

  lemma InfoOfLongList(header: seq<byte>, k: nat)
    requires 1 <= k <= 8 && |header| >= 1 + k && header[0] == 0xf7 + k && header[1] != 0
    ensures InfoFrom(header) == Ok(PayloadInfo(1 + k, FromBigEndian(header[1..1 + k])))
  {
    hide FromBigEndian;
  }

  lemma SmallPowers()
    ensures Pow256(1) == 256 && Pow256(2) == 65536 && Pow256(7) > 65536
  {
    assert Pow256(1) == Pow256(0) * 256;
    assert Pow256(7) == Pow256(6) * 256;
    assert Pow256(6) == Pow256(5) * 256;
    assert Pow256(5) == Pow256(4) * 256;
    assert Pow256(4) == Pow256(3) * 256;
    assert Pow256(3) == Pow256(2) * 256;
  }

  /** The leading byte 0xf9 means a payload of 256 to 65535 bytes. */
  lemma {:induction false} LeadingByte(n: nat)
    requires Encodable(n)
    ensures ListHeader(n)[0] == 0xf9 <==> 256 <= n < 65536
  {
    BigEndianLength(n, 1);
    BigEndianLength(n, 2);
    SmallPowers();
  }
}

/** Base 32 decoding after sections 6 and 7 of RFC 4648 (rfc4648.c). */
module Base32 {
  import opened CStrings
  import opened Sequences
  import opened Numerals
  import opened Bits

  const BASE32_ALPHABET: CString := "ABCDEFGHIJKLMNOPQRSTUVWXYZ234567"
  const BASE32HEX_ALPHABET: CString := "0123456789ABCDEFGHIJKLMNOPQRSTUV"

  /** 32 characters, all different, none of them the padding character. */
  ghost predicate IsAlphabet(alphabet: CString) {
    |alphabet| == 32 && '=' !in alphabet && forall i, j | 0 <= i < j < 32 :: alphabet[i] != alphabet[j]
  }

  /** Where `strchr` finds a character. */
  function Position(alphabet: string, c: char): (i: nat)
    requires c in alphabet
    ensures i < |alphabet| && alphabet[i] == c
  {
    if alphabet[0] == c then 0 else Position(alphabet[1..], c) + 1
  }

  /** How many characters precede the first padding character. */
  function DataLength(s: string): (n: nat)
    ensures n <= |s| && '=' !in s[..n] && (n < |s| ==> s[n] == '=')
  {
    if s == [] || s[0] == '=' then 0 else DataLength(s[1..]) + 1
  }

  function Data(s: string): string {
    s[..DataLength(s)]
  }

  predicate AllIn(alphabet: string, t: string) {
    forall k | 0 <= k < |t| :: t[k] in alphabet
  }

  function DigitsOf(alphabet: string, t: string): (ds: seq<nat>)
    requires AllIn(alphabet, t)
    ensures |ds| == |t| && forall k | 0 <= k < |t| :: ds[k] < |alphabet| && alphabet[ds[k]] == t[k]
  {
    seq(|t|, k requires 0 <= k < |t| => Position(alphabet, t[k]))
  }

  /** How many whole bytes `n` characters carry, and how many bits are left over. */
  function ByteCount(n: nat): nat { 5 * n / 8 }
  function SpareBits(n: nat): nat { 5 * n % 8 }

  /**
   The bytes that a text stands for: read as one bit string, most significant bit first,
   its leading whole bytes.
   */
  function Decoded(alphabet: string, t: string): (bytes: seq<nat>)
    requires AllIn(alphabet, t)
    ensures |bytes| == ByteCount(|t|) && AllDigits(256, bytes)
  {
    Digits(256, ByteCount(|t|), Value(32, DigitsOf(alphabet, t)) / Pow(2, SpareBits(|t|)))
  }

  //
  // One group of eight characters
  //

  /** The digits of a group, then -1 up to its eight places. */
  predicate IsGroup(m: seq<int>, ds: seq<nat>) {
    && |m| == 8 && |ds| <= 8 && AllDigits(32, ds)
    && (forall k | 0 <= k < |ds| :: m[k] == ds[k])
    && forall k | |ds| <= k < 8 :: m[k] == -1
  }

  /** The digits that byte `i` of a group needs are there. */
  predicate Ready(m: seq<int>, i: nat)
    requires |m| == 8
  {
    match i
    case 0 => m[0] != -1 && m[1] != -1
    case 1 => m[1] != -1 && m[2] != -1 && m[3] != -1
    case 2 => m[3] != -1 && m[4] != -1
    case 3 => m[4] != -1 && m[5] != -1 && m[6] != -1
    case 4 => m[6] != -1 && m[7] != -1
    case _ => false
  }

  /** The parts of two digits that share a byte, and the parts of three, put together. */
  function JoinTwo(a: nat, left: nat, b: nat, right: nat): nat {
    BitOr(Shl(a, left), Shr(b, right))
  }

  function JoinThree(a: nat, left: nat, b: nat, mid: nat, c: nat, right: nat): nat {
    BitOr(JoinHigh(a, left, b, mid), Shr(c, right))
  }

  function JoinHigh(a: nat, left: nat, b: nat, mid: nat): nat {
    BitOr(Shl(a, left), Shl(b, mid))
  }

  /** Conversion to `uint8_t`. */
  function ToByte(x: nat): nat {
    x % 256
  }

  /** Byte `i` of a group, as the program computes it. */
  function GroupByte(m: seq<int>, i: nat): (b: nat)
    requires |m| == 8 && (forall k | 0 <= k < 8 :: -1 <= m[k] < 32) && Ready(m, i)
    ensures b < 256
  {
    match i
    case 0 => ToByte(JoinTwo(m[0], 3, m[1], 2))
    case 1 => ToByte(JoinThree(m[1], 6, m[2], 1, m[3], 4))
    case 2 => ToByte(JoinTwo(m[3], 4, m[4], 1))
    case 3 => ToByte(JoinThree(m[4], 7, m[5], 2, m[6], 3))
    case _ => ToByte(JoinTwo(m[6], 5, m[7], 0))
  }

  lemma JoinTwoAdds(a: nat, left: nat, b: nat, right: nat)
    requires Shr(b, right) < Shl(1, left)
    ensures JoinTwo(a, left, b, right) == Shl(a, left) + Shr(b, right)
  {
    OrIsAdd(a, Shr(b, right), left);
  }

  lemma JoinHighAdds(a: nat, left: nat, b: nat, mid: nat)
    requires mid <= left && Shl(b, mid) < Shl(1, left)
    ensures JoinHigh(a, left, b, mid) == Shl(a, left) + Shl(b, mid) == Shl(Shl(a, left - mid) + b, mid)
  {
    OrIsAdd(a, Shl(b, mid), left);
    ShlTogether(a, b, left, mid);
  }

  lemma JoinThreeAdds(a: nat, left: nat, b: nat, mid: nat, c: nat, right: nat)
    requires mid <= left && Shl(b, mid) < Shl(1, left) && Shr(c, right) < Shl(1, mid)
    ensures JoinThree(a, left, b, mid, c, right) == Shl(a, left) + Shl(b, mid) + Shr(c, right)
  {
    JoinHighAdds(a, left, b, mid);
    OrUnder(JoinHigh(a, left, b, mid), Shl(a, left - mid) + b, Shr(c, right), mid);
  }

  lemma OrUnder(high: nat, x: nat, low: nat, k: nat)
    requires high == Shl(x, k) && low < Shl(1, k)
    ensures BitOr(high, low) == high + low
  {
    OrIsAdd(x, low, k);
  }

  lemma CutToByte(high: nat, low: nat)
    requires low < 256
    ensures (high * 256 + low) % 256 == low
  {
  }

  lemma Byte0(a: nat, b: nat)
    requires a < 32 && b < 32
    ensures ToByte(JoinTwo(a, 3, b, 2)) == a * 8 + b / 4
  {
    Shifts(1); Shifts(a); Shifts(b);
    JoinTwoAdds(a, 3, b, 2);
    CutToByte(0, a * 8 + b / 4);
  }

  lemma Byte1(a: nat, b: nat, c: nat)
    requires a < 32 && b < 32 && c < 32
    ensures ToByte(JoinThree(a, 6, b, 1, c, 4)) == a % 4 * 64 + b * 2 + c / 16
  {
    Shifts(1); Shifts(a); Shifts(b); Shifts(c);
    JoinThreeAdds(a, 6, b, 1, c, 4);
    CutToByte(a / 4, a % 4 * 64 + b * 2 + c / 16);
  }

  lemma Byte2(a: nat, b: nat)
    requires a < 32 && b < 32
    ensures ToByte(JoinTwo(a, 4, b, 1)) == a % 16 * 16 + b / 2
  {
    Shifts(1); Shifts(a); Shifts(b);
    JoinTwoAdds(a, 4, b, 1);
    CutToByte(a / 16, a % 16 * 16 + b / 2);
  }

  lemma Byte3(a: nat, b: nat, c: nat)
    requires a < 32 && b < 32 && c < 32
    ensures ToByte(JoinThree(a, 7, b, 2, c, 3)) == a % 2 * 128 + b * 4 + c / 8
  {
    Shifts(1); Shifts(a); Shifts(b); Shifts(c);
    JoinThreeAdds(a, 7, b, 2, c, 3);
    CutToByte(a / 2, a % 2 * 128 + b * 4 + c / 8);
  }

  lemma Byte4(a: nat, b: nat)
    requires a < 32 && b < 32
    ensures ToByte(JoinTwo(a, 5, b, 0)) == a % 8 * 32 + b
  {
    Shifts(1); Shifts(a); Shifts(b);
    JoinTwoAdds(a, 5, b, 0);
    CutToByte(a / 8, a % 8 * 32 + b);
  }

  //
  // What a group decodes to
  //

  /** The bytes a group yields, as many as its digits allow. */
  function GroupBytes(m: seq<int>, ds: seq<nat>, n: nat): (bytes: seq<nat>)
    requires IsGroup(m, ds) && n <= ByteCount(|ds|)
    ensures |bytes| == n && AllDigits(256, bytes)
  {
    if n == 0 then [] else GroupBytes(m, ds, n - 1) + [GroupByte(m, n - 1)]
  }

  lemma ReadyExactly(m: seq<int>, ds: seq<nat>, i: nat)
    requires IsGroup(m, ds)
    ensures Ready(m, i) <==> i < ByteCount(|ds|)
  {
  }

  /** How many digits `n` bytes take, and what their spare bits count up to. */
  function Needed(n: nat): nat {
    match n case 0 => 0 case 1 => 2 case 2 => 4 case 3 => 5 case 4 => 7 case _ => 8
  }
  function Spare(n: nat): nat {
    match n case 0 => 1 case 1 => 4 case 2 => 16 case 3 => 2 case 4 => 8 case _ => 1
  }

  lemma PrefixValue(ds: seq<nat>, k: nat)
    requires k < |ds|
    ensures Value(32, ds[..k + 1]) == Value(32, ds[..k]) * 32 + ds[k]
  {
    assert ds[..k + 1][..k] == ds[..k];
  }

  lemma NextByte(m: seq<int>, ds: seq<nat>, n: nat)
    requires IsGroup(m, ds) && n < ByteCount(|ds|)
    ensures Value(256, GroupBytes(m, ds, n + 1)) == Value(256, GroupBytes(m, ds, n)) * 256 + GroupByte(m, n)
  {
    assert GroupBytes(m, ds, n + 1)[..n] == GroupBytes(m, ds, n);
  }

  // The bytes hold the leading bits of the digits; the last digit's low bits remain.

  lemma HeldAfter1(m: seq<int>, ds: seq<nat>)
    requires IsGroup(m, ds) && |ds| >= 2
    ensures Value(32, ds[..2]) == Value(256, GroupBytes(m, ds, 1)) * 4 + ds[1] % 4
  {
    NextByte(m, ds, 0);
    Byte0(ds[0], ds[1]);
    PrefixValue(ds, 0);
    PrefixValue(ds, 1);
    assert ds[..0] == [];
  }

  lemma HeldAfter2(m: seq<int>, ds: seq<nat>)
    requires IsGroup(m, ds) && |ds| >= 4
    ensures Value(32, ds[..4]) == Value(256, GroupBytes(m, ds, 2)) * 16 + ds[3] % 16
  {
    HeldAfter1(m, ds);
    NextByte(m, ds, 1);
    Byte1(ds[1], ds[2], ds[3]);
    PrefixValue(ds, 2);
    PrefixValue(ds, 3);
  }

  lemma HeldAfter3(m: seq<int>, ds: seq<nat>)
    requires IsGroup(m, ds) && |ds| >= 5
    ensures Value(32, ds[..5]) == Value(256, GroupBytes(m, ds, 3)) * 2 + ds[4] % 2
  {
    HeldAfter2(m, ds);
    NextByte(m, ds, 2);
    Byte2(ds[3], ds[4]);
    PrefixValue(ds, 4);
  }

  lemma HeldAfter4(m: seq<int>, ds: seq<nat>)
    requires IsGroup(m, ds) && |ds| >= 7
    ensures Value(32, ds[..7]) == Value(256, GroupBytes(m, ds, 4)) * 8 + ds[6] % 8
  {
    HeldAfter3(m, ds);
    NextByte(m, ds, 3);
    Byte3(ds[4], ds[5], ds[6]);
    PrefixValue(ds, 5);
    PrefixValue(ds, 6);
  }

  lemma HeldAfter5(m: seq<int>, ds: seq<nat>)
    requires IsGroup(m, ds) && |ds| == 8
    ensures Value(32, ds[..8]) == Value(256, GroupBytes(m, ds, 5))
  {
    HeldAfter4(m, ds);
    NextByte(m, ds, 4);
    Byte4(ds[6], ds[7]);
    PrefixValue(ds, 7);
  }

  /** Dropping the spare bits: after the last whole byte, at most one more digit may follow. */
  lemma DropSpare(v: nat, high: nat, low: nat, spare: nat)
    requires low < spare && v == high * spare + low
    ensures v / spare == high
  {
    MulDivMod(high, low, spare);
  }

  /** 2 to the number of spare bits of `k` digits: one digit more than needed adds five. */
  function SparePlace(k: nat): nat {
    if k > Needed(ByteCount(k)) then Spare(ByteCount(k)) * 32 else Spare(ByteCount(k))
  }

  lemma SparePlaceIsPower(k: nat)
    requires k <= 8
    ensures SparePlace(k) == Pow(2, SpareBits(k))
    ensures k == Needed(ByteCount(k)) || k == Needed(ByteCount(k)) + 1
  {
    SmallPowers();
  }

  lemma OneMoreDigit(high: nat, spare: nat, low: nat, d: nat)
    requires low < spare && d < 32
    ensures (high * spare + low) * 32 + d == high * (spare * 32) + (low * 32 + d)
    ensures low * 32 + d < spare * 32
  {
    MulAssoc(high, spare, 32);
  }

  /** The digits are the bytes followed by the spare bits. */
  lemma SplitGroup(m: seq<int>, ds: seq<nat>) returns (low: nat)
    requires IsGroup(m, ds)
    ensures low < SparePlace(|ds|)
    ensures Value(32, ds) == Value(256, GroupBytes(m, ds, ByteCount(|ds|))) * SparePlace(|ds|) + low
  {
    var k, n := |ds|, ByteCount(|ds|);
    var high := Value(256, GroupBytes(m, ds, n));
    SparePlaceIsPower(k);
    low := HeldBits(m, ds, n);
    assert ds[..k] == ds;
    if k > Needed(n) {
      PrefixValue(ds, k - 1);
      OneMoreDigit(high, Spare(n), low, ds[k - 1]);
      low := low * 32 + ds[k - 1];
    }
  }

  lemma HeldBits(m: seq<int>, ds: seq<nat>, n: nat) returns (low: nat)
    requires IsGroup(m, ds) && n <= ByteCount(|ds|)
    ensures low < Spare(n) && Needed(n) <= |ds|
    ensures Value(32, ds[..Needed(n)]) == Value(256, GroupBytes(m, ds, n)) * Spare(n) + low
  {
    match n
    case 0 => assert ds[..0] == []; low := 0;
    case 1 => HeldAfter1(m, ds); low := ds[1] % 4;
    case 2 => HeldAfter2(m, ds); low := ds[3] % 16;
    case 3 => HeldAfter3(m, ds); low := ds[4] % 2;
    case 4 => HeldAfter4(m, ds); low := ds[6] % 8;
    case _ => HeldAfter5(m, ds); low := 0;
  }

  /** A group decodes to the value of its digits without the spare bits. */
  lemma GroupValue(m: seq<int>, ds: seq<nat>)
    requires IsGroup(m, ds)
    ensures Value(256, GroupBytes(m, ds, ByteCount(|ds|))) == Value(32, ds) / Pow(2, SpareBits(|ds|))
  {
    var low := SplitGroup(m, ds);
    SparePlaceIsPower(|ds|);
    DropSpare(Value(32, ds), Value(256, GroupBytes(m, ds, ByteCount(|ds|))), low, SparePlace(|ds|));
  }

  //
  // The decoder
  //

  /** The group that starts at `from`: as many digits as there are, then -1. */
  method MapGroup(inputString: CString, srcOffset: nat, alphabet: CString, mappedChars: array<int>)
    returns (ok: bool, ghost count: nat)
    requires |alphabet| == 32 && mappedChars.Length == 8 && srcOffset <= DataLength(inputString)
    modifies mappedChars
    ensures count <= 8 && srcOffset + count <= DataLength(inputString)
    ensures if ok then count == 8 || srcOffset + count == DataLength(inputString)
            else srcOffset + count < DataLength(inputString) && inputString[srcOffset + count] !in alphabet
    ensures AllIn(alphabet, inputString[srcOffset..srcOffset + count])
    ensures ok ==> IsGroup(mappedChars[..], DigitsOf(alphabet, inputString[srcOffset..srcOffset + count]))
  {
    for i := 0 to 8
      invariant forall k | 0 <= k < i :: mappedChars[k] == -1
    {
      mappedChars[i] := -1;
    }
    var i := 0;
    count := 0;
    ghost var rest := inputString[srcOffset..];
    while i < 8
      invariant 0 <= i == count <= 8 && srcOffset + i <= DataLength(inputString)
      invariant forall k | 0 <= k < i :: rest[k] in alphabet && mappedChars[k] == Position(alphabet, rest[k])
      invariant forall k | i <= k < 8 :: mappedChars[k] == -1
    {
      var c := At(inputString, srcOffset + i);
      AtEndOfData(inputString, srcOffset + i);
      if c == '\0' || c == '=' {
        break;
      }
      if c !in alphabet {
        assert inputString[srcOffset..srcOffset + count] == rest[..count];
        return false, count;
      }
      mappedChars[i] := Position(alphabet, c);
      i := i + 1;
      count := i;
    }
    assert inputString[srcOffset..srcOffset + count] == rest[..count];
    return true, count;
  }

  /** Reading on stops at the padding or the terminator, which is never passed. */
  lemma AtEndOfData(s: CString, k: nat)
    requires k <= DataLength(s)
    ensures k <= |s|
    ensures k == DataLength(s) ==> At(s, k) == '\0' || At(s, k) == '='
    ensures k < DataLength(s) ==> At(s, k) != '\0' && At(s, k) != '='
  {
    var data := s[..DataLength(s)];
    if k < |data| {
      assert s[k] == data[k] && data[k] in data && s[k] in s;
    }
  }

  /** Writes the bytes of a group, stopping short when a digit is missing or the buffer is full. */
  method EmitGroup(output: array<nat>, bufsize: nat, dst: nat, mappedChars: seq<int>, ghost ds: seq<nat>)
    returns (ok: bool, dstOffset: nat, finished: bool)
    requires IsGroup(mappedChars, ds) && dst <= bufsize <= output.Length
    modifies output
    ensures dst <= dstOffset <= bufsize
    ensures ok ==> dstOffset == dst + ByteCount(|ds|) && (finished <==> |ds| < 8)
    ensures !ok ==> dstOffset == bufsize < dst + ByteCount(|ds|)
    ensures ok ==> output[dst..dstOffset] == GroupBytes(mappedChars, ds, ByteCount(|ds|))
    ensures forall k | 0 <= k < output.Length && !(dst <= k < dstOffset) :: output[k] == old(output[k])
  {
    dstOffset, finished := dst, false;
    var i := 0;
    while i < 5
      invariant i <= 5 && i <= ByteCount(|ds|) && dstOffset == dst + i <= bufsize
      invariant output[dst..dstOffset] == GroupBytes(mappedChars, ds, i)
      invariant forall k | 0 <= k < output.Length && !(dst <= k < dstOffset) :: output[k] == old(output[k])
    {
      ReadyExactly(mappedChars, ds, i);
      if !Ready(mappedChars, i) {
        // The digits of this byte are not all there
        finished := true;
        break;
      }
      var next := GroupByte(mappedChars, i);
      if dstOffset >= bufsize {
        // The buffer is full
        return false, dstOffset, finished;
      }
      output[dstOffset] := next;
      dstOffset := dstOffset + 1;
      i := i + 1;
      assert output[dst..dstOffset] == output[dst..dstOffset - 1] + [next];
    }
    return true, dstOffset, finished;
  }

  lemma DataAppend(alphabet: string, a: string, b: string)
    requires AllIn(alphabet, a) && AllIn(alphabet, b)
    ensures AllIn(alphabet, a + b) && DigitsOf(alphabet, a + b) == DigitsOf(alphabet, a) + DigitsOf(alphabet, b)
  {
    assert forall k | 0 <= k < |a + b| :: (a + b)[k] == if k < |a| then a[k] else b[k - |a|];
  }

  /** Whole groups first: the value of the bytes so far is that of the digits so far. */
  lemma AppendGroup(bytes: seq<nat>, ds: seq<nat>, m: seq<int>, more: seq<nat>)
    requires IsGroup(m, more) && |bytes| * 8 == |ds| * 5 && Value(256, bytes) == Value(32, ds)
    ensures var all, digits := bytes + GroupBytes(m, more, ByteCount(|more|)), ds + more;
            && |all| == ByteCount(|digits|)
            && Value(256, all) == Value(32, digits) / Pow(2, SpareBits(|digits|))
  {
    var k := |more|;
    var j, r := ByteCount(k), SpareBits(k);
    var low := SplitGroup(m, more);
    SparePlaceIsPower(k);
    var head, tail := Value(32, ds), Value(256, GroupBytes(m, more, j));
    ValueAppend(256, bytes, GroupBytes(m, more, j));
    ValueAppend(32, ds, more);
    PowersAgree(k);
    MulAssoc(head, Pow(256, j), Pow(2, r));
    assert head * Pow(32, k) + tail * Pow(2, r) == (head * Pow(256, j) + tail) * Pow(2, r);
    MulDivMod(head * Pow(256, j) + tail, low, Pow(2, r));
    assert 5 * (|ds| + k) == 8 * |bytes| + 5 * k;
  }

  lemma PowersAgree(k: nat)
    ensures Pow(32, k) == Pow(256, ByteCount(k)) * Pow(2, SpareBits(k))
  {
    SmallPowers();
    PowPow(5, k);
    PowPow(8, ByteCount(k));
    PowAdd(2, 8 * ByteCount(k), SpareBits(k));
  }

  lemma {:induction false} PowPow(m: nat, n: nat)
    ensures Pow(Pow(2, m), n) == Pow(2, m * n)
  {
    if n > 0 {
      PowPow(m, n - 1);
      PowAdd(2, m * (n - 1), m);
      assert m * (n - 1) + m == m * n;
    }
  }

  /** The decoder's answer on what it has read so far. */
  ghost predicate DecodedSoFar(output: seq<nat>, alphabet: CString, t: string, dst: nat) {
    dst == ByteCount(|t|) <= |output| && AllIn(alphabet, t) && output[..dst] == Decoded(alphabet, t)
  }

  /**
   The bytes decoded from `n` characters, as a base 256 number, are the base 32 number
   that the characters spell, divided (rounding down) by 2 to the power 5n mod 8.
   */
  lemma DecodedValue(alphabet: CString, t: string)
    requires |alphabet| == 32 && AllIn(alphabet, t)
    ensures Value(256, Decoded(alphabet, t)) == Value(32, DigitsOf(alphabet, t)) / Pow(2, SpareBits(|t|))
  {
    var v, p := Value(32, DigitsOf(alphabet, t)), Pow(2, SpareBits(|t|));
    ValueBound(32, DigitsOf(alphabet, t));
    PowersAgree(|t|);
    ValueOfQuotient(256, ByteCount(|t|), v, p);
  }

  lemma DecodedUnique(bytes: seq<nat>, alphabet: CString, t: string)
    requires |alphabet| == 32 && AllIn(alphabet, t) && |bytes| == ByteCount(|t|) && AllDigits(256, bytes)
    requires Value(256, bytes) == Value(32, DigitsOf(alphabet, t)) / Pow(2, SpareBits(|t|))
    ensures bytes == Decoded(alphabet, t)
  {
    DigitsOfValue(256, bytes);
  }

  lemma WholeGroups(n: nat)
    requires n % 8 == 0
    ensures SpareBits(n) == 0 && ByteCount(n) * 8 == n * 5
  {
    var q := n / 8;
    assert 5 * n == 8 * (5 * q);
    MulDivMod(5 * q, 0, 8);
  }

  /** Whole groups leave no bits over. */
  lemma WholeValue(alphabet: CString, t: string)
    requires |alphabet| == 32 && AllIn(alphabet, t) && |t| % 8 == 0
    ensures Value(256, Decoded(alphabet, t)) == Value(32, DigitsOf(alphabet, t))
    ensures |Decoded(alphabet, t)| * 8 == |t| * 5
  {
    WholeGroups(|t|);
    DecodedValue(alphabet, t);
    assert Pow(2, 0) == 1;
  }

  /** Decoding one more group continues the answer. */
  lemma GroupDecoded(before: seq<nat>, after: seq<nat>, alphabet: CString, t: string, more: string, m: seq<int>,
                     dst: nat, dst': nat)
    requires |alphabet| == 32 && DecodedSoFar(before, alphabet, t, dst) && |t| % 8 == 0
    requires AllIn(alphabet, more) && IsGroup(m, DigitsOf(alphabet, more))
    requires dst' == dst + ByteCount(|more|) <= |after| && before[..dst] == after[..dst]
    requires after[dst..dst'] == GroupBytes(m, DigitsOf(alphabet, more), ByteCount(|more|))
    ensures DecodedSoFar(after, alphabet, t + more, dst')
  {
    var bytes, digits := before[..dst], DigitsOf(alphabet, t);
    WholeValue(alphabet, t);
    DataAppend(alphabet, t, more);
    AppendGroup(bytes, digits, m, DigitsOf(alphabet, more));
    Slices(after, dst, dst');
    DecodedUnique(after[..dst'], alphabet, t + more);
  }

  /** The text can be decoded into a buffer of this size. */
  predicate Decodable(s: string, alphabet: string, bufsize: nat) {
    AllIn(alphabet, Data(s)) && ByteCount(DataLength(s)) <= bufsize
  }

  /** One round of the outer loop: maps the group at `read` and writes its bytes. */
  method DecodeGroup(output: array<nat>, bufsize: nat, dst: nat, inputString: CString, read: nat, alphabet: CString,
                     ghost groups: nat)
    returns (ok: bool, dstOffset: nat, finished: bool, ghost newRead: nat)
    requires |alphabet| == 32 && dst <= bufsize <= output.Length
    requires read == 8 * groups <= DataLength(inputString)
    requires DecodedSoFar(output[..], alphabet, inputString[..read], dst)
    modifies output
    ensures dst <= dstOffset <= bufsize && read <= newRead <= DataLength(inputString)
    ensures forall k | 0 <= k < output.Length && !(dst <= k < dstOffset) :: output[k] == old(output[k])
    ensures ok ==> DecodedSoFar(output[..], alphabet, inputString[..newRead], dstOffset)
    ensures ok ==> if finished then newRead == DataLength(inputString) else newRead == read + 8
    ensures !ok ==> !Decodable(inputString, alphabet, bufsize) && dstOffset <= ByteCount(DataLength(inputString))
  {
    ghost var before, n := output[..], DataLength(inputString);
    var mappedChars := new int[8];
    ghost var count;
    dstOffset, finished := dst, false;
    ok, count := MapGroup(inputString, read, alphabet, mappedChars);
    newRead := read + count;
    ByteCountSplits(groups, count, n);
    if !ok {
      BadCharacter(inputString, alphabet, newRead);
      return;
    }
    ghost var more := inputString[read..newRead];
    ok, dstOffset, finished := EmitGroup(output, bufsize, dst, mappedChars[..], DigitsOf(alphabet, more));
    if ok {
      SameStart(before, output[..], dst);
      RoundDecoded(before, output[..], alphabet, inputString, read, newRead, mappedChars[..], dst, dstOffset);
    }
  }

  lemma BadCharacter(s: string, alphabet: string, k: nat)
    requires k < DataLength(s) && s[k] !in alphabet
    ensures !AllIn(alphabet, Data(s))
  {
    assert Data(s)[k] == s[k];
  }

  lemma SameStart(before: seq<nat>, after: seq<nat>, dst: nat)
    requires dst <= |before| == |after| && forall k | 0 <= k < dst :: before[k] == after[k]
    ensures before[..dst] == after[..dst]
  {
  }

  lemma RoundDecoded(before: seq<nat>, after: seq<nat>, alphabet: CString, s: string, read: nat, newRead: nat,
                     m: seq<int>, dst: nat, dst': nat)
    requires |alphabet| == 32 && read <= newRead <= |s| && read % 8 == 0
    requires DecodedSoFar(before, alphabet, s[..read], dst)
    requires AllIn(alphabet, s[read..newRead]) && IsGroup(m, DigitsOf(alphabet, s[read..newRead]))
    requires dst' == dst + ByteCount(newRead - read) <= |after| && before[..dst] == after[..dst]
    requires after[dst..dst'] == GroupBytes(m, DigitsOf(alphabet, s[read..newRead]), ByteCount(newRead - read))
    ensures DecodedSoFar(after, alphabet, s[..newRead], dst')
  {
    Slices(s, read, newRead);
    GroupDecoded(before, after, alphabet, s[..read], s[read..newRead], m, dst, dst');
  }

  lemma ByteCountSplits(groups: nat, count: nat, n: nat)
    requires 8 * groups + count <= n
    ensures ByteCount(8 * groups) + ByteCount(count) == ByteCount(8 * groups + count) <= ByteCount(n)
    ensures 8 * groups % 8 == 0
  {
    assert ByteCount(8 * groups) == 5 * groups;
  }

  /**
   `rfc4648_decode_base32_multi`: succeeds exactly when everything before the padding is in
   the alphabet and the bytes fit; then the buffer starts with what the text stands for.
   */
  method DecodeBase32Multi(output: array<nat>, bufsize: nat, inputString: CString, alphabet: CString)
    returns (ok: bool)
    requires |alphabet| == 32 && bufsize <= output.Length
    modifies output
    ensures ok <==> Decodable(inputString, alphabet, bufsize)
    ensures ok ==> output[..ByteCount(DataLength(inputString))] == Decoded(alphabet, Data(inputString))
    ensures forall k | bufsize <= k < output.Length || ByteCount(DataLength(inputString)) <= k < output.Length ::
              output[k] == old(output[k])
  {
    var srcOffset, dstOffset := 0, 0;
    var finished := false;
    ghost var n := DataLength(inputString);
    ghost var read, groups := 0, 0;
    assert inputString[..0] == [] && output[..0] == [];
    while !finished
      invariant 0 <= read <= n && 0 <= dstOffset <= bufsize
      invariant DecodedSoFar(output[..], alphabet, inputString[..read], dstOffset)
      invariant if finished then read == n else srcOffset == read == 8 * groups
      invariant forall k | dstOffset <= k < output.Length :: output[k] == old(output[k])
      decreases !finished, n - read
    {
      ok, dstOffset, finished, read := DecodeGroup(output, bufsize, dstOffset, inputString, srcOffset, alphabet,
                                                      groups);
      if !ok {
        return false;
      }
      srcOffset, groups := srcOffset + 8, groups + 1;
    }
    assert output[..][..dstOffset] == output[..dstOffset];
    ok := true;
  }

  /** `rfc4648_decode_base32` */
  method DecodeBase32(output: array<nat>, bufsize: nat, inputString: CString) returns (ok: bool)
    requires bufsize <= output.Length
    modifies output
    ensures ok <==> Decodable(inputString, BASE32_ALPHABET, bufsize)
    ensures ok ==> output[..ByteCount(DataLength(inputString))] == Decoded(BASE32_ALPHABET, Data(inputString))
    ensures forall k | bufsize <= k < output.Length || ByteCount(DataLength(inputString)) <= k < output.Length ::
              output[k] == old(output[k])
  {
    ok := DecodeBase32Multi(output, bufsize, inputString, BASE32_ALPHABET);
  }

  /** `rfc4648_decode_base32hex` */
  method DecodeBase32Hex(output: array<nat>, bufsize: nat, inputString: CString) returns (ok: bool)
    requires bufsize <= output.Length
    modifies output
    ensures ok <==> Decodable(inputString, BASE32HEX_ALPHABET, bufsize)
    ensures ok ==> output[..ByteCount(DataLength(inputString))] == Decoded(BASE32HEX_ALPHABET, Data(inputString))
    ensures forall k | bufsize <= k < output.Length || ByteCount(DataLength(inputString)) <= k < output.Length ::
              output[k] == old(output[k])
  {
    ok := DecodeBase32Multi(output, bufsize, inputString, BASE32HEX_ALPHABET);
  }

  //
  // The encoding of RFC 4648, and the round trips
  //

  /** How many characters `m` bytes take. */
  function CharCount(m: nat): nat { (8 * m + 4) / 5 }

  /** The zero bits added on the right to fill the last character. */
  function FillBits(m: nat): nat { 5 * CharCount(m) - 8 * m }

  function Spell(alphabet: string, ds: seq<nat>): (t: string)
    requires AllDigits(|alphabet|, ds)
    ensures |t| == |ds| && AllIn(alphabet, t)
  {
    seq(|ds|, k requires 0 <= k < |ds| => alphabet[ds[k]])
  }

  /** The bytes as one bit string, filled up with zero bits and cut into groups of five. */
  function EncodeData(alphabet: string, bytes: seq<nat>): (t: string)
    requires |alphabet| == 32
    ensures |t| == CharCount(|bytes|) && AllIn(alphabet, t)
  {
    Spell(alphabet, Digits(32, CharCount(|bytes|), Shl(Value(256, bytes), FillBits(|bytes|))))
  }

  /** Padding up to a multiple of eight characters. */
  function Padding(n: nat): string {
    seq((8 - n % 8) % 8, _ => '=')
  }

  function Encode(alphabet: string, bytes: seq<nat>): string
    requires |alphabet| == 32
  {
    EncodeData(alphabet, bytes) + Padding(CharCount(|bytes|))
  }

  lemma {:induction false} PositionIs(alphabet: string, i: nat)
    requires i < |alphabet| && forall k | 0 <= k < i :: alphabet[k] != alphabet[i]
    ensures Position(alphabet, alphabet[i]) == i
  {
    if i > 0 {
      PositionIs(alphabet[1..], i - 1);
    }
  }

  lemma DigitsOfSpell(alphabet: CString, ds: seq<nat>)
    requires IsAlphabet(alphabet) && AllDigits(32, ds)
    ensures DigitsOf(alphabet, Spell(alphabet, ds)) == ds
  {
    forall k | 0 <= k < |ds| ensures Position(alphabet, alphabet[ds[k]]) == ds[k] {
      PositionIs(alphabet, ds[k]);
    }
  }

  lemma CountsFit(m: nat)
    ensures ByteCount(CharCount(m)) == m && SpareBits(CharCount(m)) == FillBits(m)
  {
  }

  /** The encoded number fits the characters. */
  lemma EncodedFits(bytes: seq<nat>)
    requires AllDigits(256, bytes)
    ensures Shl(Value(256, bytes), FillBits(|bytes|)) < Pow(32, CharCount(|bytes|))
  {
    CountsFit(|bytes|);
    PowersAgree(CharCount(|bytes|));
    ValueBound(256, bytes);
    ShlBound(Value(256, bytes), Pow(256, |bytes|), FillBits(|bytes|));
  }

  /** The characters of an encoding spell the bits of the bytes, filled up with zeros. */
  lemma EncodedValue(alphabet: CString, bytes: seq<nat>)
    requires IsAlphabet(alphabet) && AllDigits(256, bytes)
    ensures Value(32, DigitsOf(alphabet, EncodeData(alphabet, bytes))) == Shl(Value(256, bytes), FillBits(|bytes|))
  {
    var v := Shl(Value(256, bytes), FillBits(|bytes|));
    DigitsOfSpell(alphabet, Digits(32, CharCount(|bytes|), v));
    EncodedFits(bytes);
    ValueOfDigits(32, CharCount(|bytes|), v);
  }

  /** The padding character ends the data, whatever follows it. */
  lemma {:induction false} DataOf(t: string, tail: string)
    requires '=' !in t && (tail == "" || tail[0] == '=')
    ensures DataLength(t + tail) == |t| && Data(t + tail) == t
  {
    if t == "" {
      assert t + tail == tail;
    } else {
      assert t[0] in t;
      DataOf(t[1..], tail);
      assert (t + tail)[1..] == t[1..] + tail;
    }
  }

  lemma SpelledHasNoPadding(alphabet: CString, t: string)
    requires IsAlphabet(alphabet) && AllIn(alphabet, t)
    ensures '=' !in t && '\0' !in t
  {
    forall k | 0 <= k < |t| ensures t[k] != '=' && t[k] != '\0' {
      assert t[k] in alphabet;
    }
  }

  /**
   Decoding undoes encoding: for any bytes and either alphabet, padded, unpadded or
   followed by anything behind a padding character.
   */
  lemma DecodeEncode(alphabet: CString, bytes: seq<nat>, tail: string)
    requires IsAlphabet(alphabet) && AllDigits(256, bytes) && (tail == "" || tail[0] == '=')
    ensures var s := EncodeData(alphabet, bytes) + tail;
            && Decodable(s, alphabet, |bytes|)
            && Decoded(alphabet, Data(s)) == bytes
  {
    var t := EncodeData(alphabet, bytes);
    SpelledHasNoPadding(alphabet, t);
    DataOf(t, tail);
    CountsFit(|bytes|);
    EncodedValue(alphabet, bytes);
    ShlThenDivide(Value(256, bytes), FillBits(|bytes|));
    DecodedUnique(bytes, alphabet, t);
  }

  /** A text that a conforming encoder can have produced: a possible length, and zero fill bits. */
  predicate IsCanonicalData(alphabet: string, t: string)
    requires AllIn(alphabet, t)
  {
    |t| % 8 !in {1, 3, 6} && (t != "" ==> Position(alphabet, t[|t| - 1]) % Pow(2, SpareBits(|t|)) == 0)
  }

  lemma SpellDigitsOf(alphabet: CString, t: string)
    requires |alphabet| == 32 && AllIn(alphabet, t)
    ensures Spell(alphabet, DigitsOf(alphabet, t)) == t
  {
  }

  /** Texts of one length are told apart by the numbers they spell. */
  lemma SpelledUnique(alphabet: CString, t: string, u: string)
    requires |alphabet| == 32 && AllIn(alphabet, t) && AllIn(alphabet, u) && |t| == |u|
    requires Value(32, DigitsOf(alphabet, t)) == Value(32, DigitsOf(alphabet, u))
    ensures t == u
  {
    ValueInjective(32, DigitsOf(alphabet, t), DigitsOf(alphabet, u));
    SpellDigitsOf(alphabet, t);
    SpellDigitsOf(alphabet, u);
  }

  /** Which lengths an encoding can have. */
  lemma PossibleLengths(n: nat)
    ensures n % 8 !in {1, 3, 6} <==> CharCount(ByteCount(n)) == n
    ensures n % 8 !in {1, 3, 6} ==> SpareBits(n) <= 4 && FillBits(ByteCount(n)) == SpareBits(n)
  {
    var q, r := n / 8, n % 8;
    assert 5 * n == 8 * (5 * q) + 5 * r;
    assert ByteCount(n) == 5 * q + 5 * r / 8;
  }

  lemma ModUnder32(head: nat, d: nat, p: nat)
    requires p in {1, 2, 4, 8, 16}
    ensures (head * 32 + d) % p == d % p
  {
    match p
    case 1 => MulDivMod(head * 32 + d, 0, 1);
    case 2 => MulDivMod(head * 16 + d / 2, d % 2, 2);
    case 4 => MulDivMod(head * 8 + d / 4, d % 4, 4);
    case 8 => MulDivMod(head * 4 + d / 8, d % 8, 8);
    case _ => MulDivMod(head * 2 + d / 16, d % 16, 16);
  }

  /** The low bits of a number are those of its last digit. */
  lemma LowBits(ds: seq<nat>, k: nat)
    requires ds != [] && AllDigits(32, ds) && k <= 4
    ensures Value(32, ds) % Pow(2, k) == ds[|ds| - 1] % Pow(2, k)
  {
    SmallPowers();
    ModUnder32(Value(32, ds[..|ds| - 1]), ds[|ds| - 1], Pow(2, k));
  }

  /** Re-encoding clears the spare bits and keeps the others. */
  lemma ReencodedValue(alphabet: CString, t: string)
    requires IsAlphabet(alphabet) && AllIn(alphabet, t) && |t| % 8 !in {1, 3, 6}
    ensures var v, u := Value(32, DigitsOf(alphabet, t)), EncodeData(alphabet, Decoded(alphabet, t));
            |u| == |t| && Value(32, DigitsOf(alphabet, u)) == v - v % Pow(2, SpareBits(|t|))
  {
    var v, k := Value(32, DigitsOf(alphabet, t)), SpareBits(|t|);
    PossibleLengths(|t|);
    EncodedValue(alphabet, Decoded(alphabet, t));
    DecodedValue(alphabet, t);
    ShlIsTimes(v / Pow(2, k), k);
    FloorTimes(v, Pow(2, k));
  }

  lemma SpareBitsOfText(alphabet: CString, t: string)
    requires IsAlphabet(alphabet) && AllIn(alphabet, t) && |t| % 8 !in {1, 3, 6}
    ensures IsCanonicalData(alphabet, t) <==> Value(32, DigitsOf(alphabet, t)) % Pow(2, SpareBits(|t|)) == 0
  {
    PossibleLengths(|t|);
    if t != "" {
      LowBits(DigitsOf(alphabet, t), SpareBits(|t|));
    }
  }

  /** Exactly the canonical texts are given back by re-encoding what they decode to. */
  lemma EncodeDecode(alphabet: CString, t: string)
    requires IsAlphabet(alphabet) && AllIn(alphabet, t)
    ensures EncodeData(alphabet, Decoded(alphabet, t)) == t <==> IsCanonicalData(alphabet, t)
  {
    PossibleLengths(|t|);
    if |t| % 8 !in {1, 3, 6} {
      ReencodedValue(alphabet, t);
      SpareBitsOfText(alphabet, t);
      if IsCanonicalData(alphabet, t) {
        SpelledUnique(alphabet, t, EncodeData(alphabet, Decoded(alphabet, t)));
      }
    }
  }

  /** With padding: exactly the canonical texts, padded to a multiple of eight, are given back. */
  lemma EncodeDecodePadded(alphabet: CString, s: string)
    requires IsAlphabet(alphabet) && AllIn(alphabet, Data(s))
    ensures Encode(alphabet, Decoded(alphabet, Data(s))) == s
       <==> IsCanonicalData(alphabet, Data(s)) && s == Data(s) + Padding(|Data(s)|)
  {
    var t := Data(s);
    var u := EncodeData(alphabet, Decoded(alphabet, t));
    EncodeDecode(alphabet, t);
    SpelledHasNoPadding(alphabet, u);
    DataOf(u, Padding(|u|));
  }

  //
  // The two alphabets
  //

  /** The letters and then the digits from 2 on, or the digits and then the letters: 32 different characters each. */
  lemma AlphabetsOk()
    ensures IsAlphabet(BASE32_ALPHABET) && IsAlphabet(BASE32HEX_ALPHABET)
    ensures forall k | 0 <= k < 26 :: BASE32_ALPHABET[k] as int == 'A' as int + k
    ensures forall k | 26 <= k < 32 :: BASE32_ALPHABET[k] as int == '2' as int + k - 26
    ensures forall k | 0 <= k < 10 :: BASE32HEX_ALPHABET[k] as int == '0' as int + k
    ensures forall k | 10 <= k < 32 :: BASE32HEX_ALPHABET[k] as int == 'A' as int + k - 10
  {
    var a, b := BASE32_ALPHABET, BASE32HEX_ALPHABET;
    assert forall k | 0 <= k < 26 :: a[k] as int == 'A' as int + k;
    assert forall k | 26 <= k < 32 :: a[k] as int == '2' as int + k - 26;
    assert forall k | 0 <= k < 10 :: b[k] as int == '0' as int + k;
    assert forall k | 10 <= k < 32 :: b[k] as int == 'A' as int + k - 10;
  }
}

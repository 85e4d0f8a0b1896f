/**
 * Document identifiers. Every stored record carries a twelve-byte ObjectId;
 * `_id.toString()` renders it as 24 lower-case hexadecimal digits, and a
 * string given as an id (a route parameter, the requester id) is cast back
 * by accepting exactly 24 hexadecimal digits of either case.
 */
module ObjectIds {
  import opened Wrappers

  newtype byte = b: int | 0 <= b < 256

  type ObjectId = s: seq<byte> | |s| == 12
    witness [0, 0, 0, 0, 0, 0, 0, 0, 0, 0, 0, 0]

  const LowerHexDigits: string := "0123456789abcdef"

  function HexDigit(n: int): (c: char)
    requires 0 <= n < 16
    ensures c in LowerHexDigits
  {
    LowerHexDigits[n]
  }

  /** The value of one hexadecimal digit, upper or lower case. */
  function DigitValue(c: char): (r: Option<int>)
    ensures r.Some? ==> 0 <= r.value < 16
    ensures r.Some? <==> ('0' <= c <= '9' || 'a' <= c <= 'f' || 'A' <= c <= 'F')
  {
    if '0' <= c <= '9' then Some(c as int - '0' as int)
    else if 'a' <= c <= 'f' then Some(c as int - 'a' as int + 10)
    else if 'A' <= c <= 'F' then Some(c as int - 'A' as int + 10)
    else None
  }

  lemma DigitValueOfHexDigit(n: int)
    requires 0 <= n < 16
    ensures DigitValue(HexDigit(n)) == Some(n)
  {
    assert LowerHexDigits == ['0', '1', '2', '3', '4', '5', '6', '7', '8', '9', 'a', 'b', 'c', 'd', 'e', 'f'];
  }

  /** Two digits per byte, high nibble first. */
  function Hex(bytes: seq<byte>): (s: string)
    ensures |s| == 2 * |bytes|
  {
    if bytes == [] then []
    else [HexDigit(bytes[0] as int / 16), HexDigit(bytes[0] as int % 16)] + Hex(bytes[1..])
  }

  function Unhex(s: string): (r: Option<seq<byte>>)
    ensures r.Some? ==> 2 * |r.value| == |s|
    decreases |s|
  {
    if s == [] then Some([])
    else if |s| == 1 then None
    else
      var hi, lo, rest := DigitValue(s[0]), DigitValue(s[1]), Unhex(s[2..]);
      if hi.Some? && lo.Some? && rest.Some? then Some([(hi.value * 16 + lo.value) as byte] + rest.value)
      else None
  }

  /** `ObjectId.toString()`. */
  function ToHexString(id: ObjectId): (s: string)
    ensures |s| == 24
    ensures forall i :: 0 <= i < |s| ==> s[i] in LowerHexDigits
  {
    HexIsLowerCase(id);
    Hex(id)
  }

  /** Casting a string to an ObjectId, as a lookup by id does before querying. */
  function Cast(s: string): (r: Option<ObjectId>)
    ensures r.Some? <==> |s| == 24 && forall i :: 0 <= i < |s| ==> DigitValue(s[i]).Some?
  {
    UnhexDefined(s);
    if |s| != 24 then None
    else
      match Unhex(s)
      case Some(bytes) => Some(bytes)
      case None => None
  }

  lemma {:induction false} UnhexDefined(s: string)
    ensures Unhex(s).Some? <==> |s| % 2 == 0 && forall i :: 0 <= i < |s| ==> DigitValue(s[i]).Some?
    decreases |s|
  {
    if |s| >= 2 {
      UnhexDefined(s[2..]);
      assert forall i :: 2 <= i < |s| ==> s[i] == s[2..][i - 2];
    }
  }

  lemma {:induction false} HexIsLowerCase(bytes: seq<byte>)
    ensures forall i :: 0 <= i < |Hex(bytes)| ==> Hex(bytes)[i] in LowerHexDigits
  {
    if bytes != [] {
      HexIsLowerCase(bytes[1..]);
      var h := [HexDigit(bytes[0] as int / 16), HexDigit(bytes[0] as int % 16)];
      assert Hex(bytes) == h + Hex(bytes[1..]);
      forall i | 0 <= i < |Hex(bytes)| ensures Hex(bytes)[i] in LowerHexDigits {
        if i >= 2 { assert Hex(bytes)[i] == Hex(bytes[1..])[i - 2]; }
      }
    }
  }

  lemma {:induction false} UnhexHex(bytes: seq<byte>)
    ensures Unhex(Hex(bytes)) == Some(bytes)
  {
    if bytes != [] {
      var b := bytes[0] as int;
      var hi, lo := b / 16, b % 16;
      HexHead(bytes);
      DigitValueOfHexDigit(hi);
      DigitValueOfHexDigit(lo);
      UnhexHex(bytes[1..]);
      UnhexCons(Hex(bytes), hi, lo, bytes[1..]);
      NibblesOf(b);
      assert (hi * 16 + lo) as byte == bytes[0];
      assert [(hi * 16 + lo) as byte] + bytes[1..] == bytes;
    }
  }

  lemma UnhexCons(s: string, hi: int, lo: int, rest: seq<byte>)
    requires |s| >= 2 && 0 <= hi < 16 && 0 <= lo < 16
    requires DigitValue(s[0]) == Some(hi) && DigitValue(s[1]) == Some(lo) && Unhex(s[2..]) == Some(rest)
    ensures Unhex(s) == Some([(hi * 16 + lo) as byte] + rest)
  {
  }

  lemma HexHead(bytes: seq<byte>)
    requires bytes != []
    ensures Hex(bytes)[0] == HexDigit(bytes[0] as int / 16)
    ensures Hex(bytes)[1] == HexDigit(bytes[0] as int % 16)
    ensures Hex(bytes)[2..] == Hex(bytes[1..])
  {
  }

  lemma NibblesOf(b: int)
    requires 0 <= b < 256
    ensures b / 16 * 16 + b % 16 == b
  {
  }

  /** Casting the string form of an id gives the id back. */
  lemma CastToHexString(id: ObjectId)
    ensures Cast(ToHexString(id)) == Some(id)
  {
    UnhexHex(id);
  }

  /** A lower-case digit is the rendering of its own value. */
  lemma HexDigitOfDigitValue(c: char)
    requires c in LowerHexDigits
    ensures DigitValue(c).Some? && HexDigit(DigitValue(c).value) == c
  {
    var n :| 0 <= n < 16 && LowerHexDigits[n] == c;
    DigitValueOfHexDigit(n);
  }

  lemma NibblesOfPair(hi: int, lo: int)
    requires 0 <= hi < 16 && 0 <= lo < 16
    ensures (hi * 16 + lo) / 16 == hi && (hi * 16 + lo) % 16 == lo
  {
  }

  /** A string of lower-case digit pairs is the rendering of the bytes it decodes to. */
  lemma {:induction false} HexUnhex(s: string)
    requires |s| % 2 == 0
    requires forall i :: 0 <= i < |s| ==> s[i] in LowerHexDigits
    ensures Unhex(s).Some? && Hex(Unhex(s).value) == s
    decreases |s|
  {
    if s != [] {
      var rest := s[2..];
      assert forall i :: 0 <= i < |rest| ==> rest[i] == s[i + 2];
      HexUnhex(rest);
      var tail := Unhex(rest).value;
      HexDigitOfDigitValue(s[0]);
      HexDigitOfDigitValue(s[1]);
      var hi, lo := DigitValue(s[0]).value, DigitValue(s[1]).value;
      UnhexCons(s, hi, lo, tail);
      NibblesOfPair(hi, lo);
      var bytes := [(hi * 16 + lo) as byte] + tail;
      assert bytes[0] as int / 16 == hi && bytes[0] as int % 16 == lo;
      assert bytes[1..] == tail;
      HexHead(bytes);
      HexSplit(Hex(bytes), s);
    }
  }

  lemma HexSplit(h: string, s: string)
    requires |h| == |s| >= 2 && h[0] == s[0] && h[1] == s[1] && h[2..] == s[2..]
    ensures h == s
  {
    assert h == [h[0], h[1]] + h[2..];
    assert s == [s[0], s[1]] + s[2..];
  }

  /**
   * A string that casts to an id is that id's string form exactly when its
   * digits are all lower case.
   */
  lemma ToHexStringOfCast(s: string)
    requires Cast(s).Some?
    ensures ToHexString(Cast(s).value) == s <==> forall i :: 0 <= i < |s| ==> s[i] in LowerHexDigits
  {
    if forall i :: 0 <= i < |s| ==> s[i] in LowerHexDigits {
      HexUnhex(s);
    }
  }

  /**
   * Comparing a requester string that casts to `id` with an owner's string
   * form succeeds exactly when the owner is `id` and the requester wrote it
   * in lower case: an upper-case spelling of the owner's id never matches.
   */
  lemma OwnerStringMatch(s: string, id: ObjectId, owner: ObjectId)
    requires Cast(s) == Some(id)
    ensures Some(s) == Some(ToHexString(owner)) <==> owner == id && s == ToHexString(id)
    ensures s == ToHexString(id) <==> forall i :: 0 <= i < |s| ==> s[i] in LowerHexDigits
  {
    ToHexStringOfCast(s);
    if s == ToHexString(owner) {
      CastToHexString(owner);
    }
  }

  /** Two ids have the same string form exactly when they are the same id. */
  lemma ToHexStringInjective(a: ObjectId, b: ObjectId)
    ensures ToHexString(a) == ToHexString(b) <==> a == b
  {
    if ToHexString(a) == ToHexString(b) {
      CastToHexString(a);
      CastToHexString(b);
    }
  }
}

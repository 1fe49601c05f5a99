/** The factory MAC address of an ESP8266, assembled from three OTP register words and
    written as six colon-separated lowercase hex pairs (`ComputeMacAddr`). */
module MacAddr {
  import opened Bytes
  import opened Hex

  /** The six MAC bytes, in output order, picked out of the register words read from
      0x3ff00050 (`mac0`), 0x3ff00054 (`mac1`) and 0x3ff0005c (`mac3`). */
  function MacBytes(mac0: Word, mac1: Word, mac3: Word): (m: seq<byte>)
    ensures |m| == 6
  {
    [mac3[2], mac3[1], mac3[0], mac1[1], mac1[0], mac0[3]]
  }

  /** Hex pairs of `b` joined by `:` (the empty sequence gives the empty string). */
  function MacString(b: seq<byte>): (s: string)
    ensures |b| > 0 ==> |s| == 3 * |b| - 1
  {
    if |b| == 0 then ""
    else if |b| == 1 then EncodeByte(b[0])
    else EncodeByte(b[0]) + ":" + MacString(b[1..])
  }

  /** Reads a string of colon-separated lowercase hex pairs back into bytes. */
  function ParseMac(s: string): Option<seq<byte>>
    decreases |s|
  {
    if |s| < 2 then None
    else match DecodeByte(s[..2])
      case None => None
      case Some(x) =>
        if |s| == 2 then Some([x])
        else if s[2] != ':' then None
        else match ParseMac(s[3..])
          case None => None
          case Some(rest) => Some([x] + rest)
  }

  /** Appending one more byte adds a `:` and its pair at the end; this is the step of the
      loop in `ComputeMacAddr`. */
  lemma {:induction false} MacStringSnoc(b: seq<byte>, x: byte)
    requires |b| > 0
    ensures MacString(b + [x]) == MacString(b) + ":" + EncodeByte(x)
  {
    if |b| > 1 {
      assert (b + [x])[1..] == b[1..] + [x];
      MacStringSnoc(b[1..], x);
    } else {
      assert (b + [x])[1..] == [x];
    }
  }

  /** Pair `k` of the string is the encoding of byte `k`, and it is followed by `:` unless it is last. */
  lemma {:induction false} MacStringAt(b: seq<byte>, k: nat)
    requires k < |b|
    ensures MacString(b)[3 * k..3 * k + 2] == EncodeByte(b[k])
    ensures k + 1 < |b| ==> MacString(b)[3 * k + 2] == ':'
  {
    if k > 0 {
      MacStringAt(b[1..], k - 1);
      var tail := MacString(b[1..]);
      assert MacString(b) == EncodeByte(b[0]) + ":" + tail;
      assert MacString(b)[3 * k..3 * k + 2] == tail[3 * (k - 1)..3 * (k - 1) + 2];
    }
  }

  /** `:` stands exactly at the positions 2, 5, 8, ... and every other character is a
      lowercase hex digit. */
  lemma MacStringShape(b: seq<byte>)
    ensures forall i :: 0 <= i < |MacString(b)| ==> (MacString(b)[i] == ':' <==> i % 3 == 2)
    ensures forall i :: 0 <= i < |MacString(b)| && i % 3 != 2 ==> IsHexDigit(MacString(b)[i])
  {
    var s := MacString(b);
    forall i | 0 <= i < |s|
      ensures s[i] == ':' <==> i % 3 == 2
      ensures i % 3 != 2 ==> IsHexDigit(s[i])
    {
      var k := i / 3;
      MacStringAt(b, k);
      if i % 3 != 2 {
        assert s[i] == s[3 * k..3 * k + 2][i % 3];
      }
    }
  }

  /** Parsing recovers the bytes of any non-empty formatted address. */
  lemma {:induction false} ParseMacString(b: seq<byte>)
    requires |b| > 0
    ensures ParseMac(MacString(b)) == Some(b)
  {
    var s := MacString(b);
    assert s[..2] == EncodeByte(b[0]);
    DecodeEncode(b[0]);
    if |b| > 1 {
      assert s == EncodeByte(b[0]) + ":" + MacString(b[1..]);
      assert |s| > 2 && s[2] == ':' && s[3..] == MacString(b[1..]);
      ParseMacString(b[1..]);
      assert b == [b[0]] + b[1..];
    } else {
      assert s == s[..2] && b == [b[0]];
    }
  }

  /** Whatever parses is the formatted address of what it parses to. */
  lemma {:induction false} MacStringParse(s: string, b: seq<byte>)
    requires ParseMac(s) == Some(b)
    ensures |b| > 0 && MacString(b) == s
    decreases |s|
  {
    var x := DecodeByte(s[..2]).value;
    EncodeDecode(s[..2], x);
    if |s| > 2 {
      var rest := ParseMac(s[3..]).value;
      MacStringParse(s[3..], rest);
      assert b == [x] + rest;
      assert b[1..] == rest;
      assert s == s[..2] + [s[2]] + s[3..];
    }
  }

  /** Different byte sequences never format to the same address. */
  lemma MacStringInjective(a: seq<byte>, b: seq<byte>)
    requires |a| > 0 && |b| > 0
    requires MacString(a) == MacString(b)
    ensures a == b
  {
    ParseMacString(a);
    ParseMacString(b);
  }

  /** The address depends on exactly `mac0[3]`, `mac1[0]`, `mac1[1]`, `mac3[0]`, `mac3[1]` and `mac3[2]`: two inputs give
      the same string if and only if they agree on these six bytes. */
  lemma MacAddrDependsExactly(a0: Word, a1: Word, a3: Word, b0: Word, b1: Word, b3: Word)
    ensures MacString(MacBytes(a0, a1, a3)) == MacString(MacBytes(b0, b1, b3)) <==>
      a0[3] == b0[3] && a1[..2] == b1[..2] && a3[..3] == b3[..3]
  {
    var ma, mb := MacBytes(a0, a1, a3), MacBytes(b0, b1, b3);
    if MacString(ma) == MacString(mb) {
      MacStringInjective(ma, mb);
      assert ma[5] == mb[5] && ma[3] == mb[3] && ma[4] == mb[4];
      assert ma[0] == mb[0] && ma[1] == mb[1] && ma[2] == mb[2];
      assert a1[..2] == [a1[0], a1[1]] && b1[..2] == [b1[0], b1[1]];
      assert a3[..3] == [a3[0], a3[1], a3[2]] && b3[..3] == [b3[0], b3[1], b3[2]];
    }
    if a0[3] == b0[3] && a1[..2] == b1[..2] && a3[..3] == b3[..3] {
      assert a1[0] == a1[..2][0] && a1[1] == a1[..2][1];
      assert a3[0] == a3[..3][0] && a3[1] == a3[..3][1] && a3[2] == a3[..3][2];
      assert ma == mb;
    }
  }

  /** `ComputeMacAddr`: picks the six MAC bytes and appends their hex pairs to `s`, with a
      `:` before every pair but the first. */
  method ComputeMacAddr(mac0: Word, mac1: Word, mac3: Word) returns (s: string)
    ensures s == MacString(MacBytes(mac0, mac1, mac3))
    ensures |s| == 17
    ensures forall i :: 0 <= i < |s| ==> (s[i] == ':' <==> i % 3 == 2)
    ensures forall i :: 0 <= i < |s| && i % 3 != 2 ==> IsHexDigit(s[i])
    ensures forall k :: 0 <= k < 6 ==> s[3 * k..3 * k + 2] == EncodeByte(MacBytes(mac0, mac1, mac3)[k])
  {
    var macAddr := MacBytes(mac0, mac1, mac3);
    s := "";
    for i := 0 to |macAddr|
      invariant s == MacString(macAddr[..i])
    {
      if i >= 1 {
        s := s + ":";
        MacStringSnoc(macAddr[..i], macAddr[i]);
      }
      s := s + EncodeByte(macAddr[i]);
      assert macAddr[..i + 1] == macAddr[..i] + [macAddr[i]];
    }
    assert macAddr[..|macAddr|] == macAddr;
    MacStringShape(macAddr);
    forall k | 0 <= k < 6
      ensures s[3 * k..3 * k + 2] == EncodeByte(macAddr[k])
    {
      MacStringAt(macAddr, k);
    }
  }

  /** The worked example: bytes 0xAA, 0xBB 0xCC and 0xDD 0xEE 0xFF in the selected positions
      give "ff:ee:dd:cc:bb:aa", whatever the other bytes hold. */
  lemma FactoryExample(x0: byte, x1: byte, x2: byte, y2: byte, y3: byte, z3: byte)
    ensures MacString(MacBytes([x0, x1, x2, 0xAA], [0xBB, 0xCC, y2, y3], [0xDD, 0xEE, 0xFF, z3]))
         == "ff:ee:dd:cc:bb:aa"
  {
    assert EncodeByte(0xFF) == "ff";
    assert EncodeByte(0xEE) == "ee";
    assert EncodeByte(0xDD) == "dd";
    assert EncodeByte(0xCC) == "cc";
    assert EncodeByte(0xBB) == "bb";
    assert EncodeByte(0xAA) == "aa";
    var m: seq<byte> := [0xFF, 0xEE, 0xDD, 0xCC, 0xBB, 0xAA];
    assert MacBytes([x0, x1, x2, 0xAA], [0xBB, 0xCC, y2, y3], [0xDD, 0xEE, 0xFF, z3]) == m;
    assert MacString(m[5..]) == "aa";
    assert MacString(m[4..]) == "bb:aa";
    assert MacString(m[3..]) == "cc:bb:aa";
    assert MacString(m[2..]) == "dd:cc:bb:aa";
    assert MacString(m[1..]) == "ee:dd:cc:bb:aa";
  }
}

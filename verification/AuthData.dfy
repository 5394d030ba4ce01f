/**
 The first packet of an X11 connection and the substitution of its
 authentication data (`io_check_auth_data`).

 The packet is the connection setup request of the X Window System Protocol,
 X Version 11, chapter 8, in the encoding of Appendix B: one byte-order octet,
 one unused octet, two version numbers, the two lengths, two unused octets,
 then the protocol name and the protocol data, each padded to four octets.
 */
module AuthData {
  import opened Bytes
  import Bits

  const FIXED_PART := 12
  /** `(unsigned) ~3`. */
  const NOT_THREE := 0xFFFF_FFFC

  /** `(n + 3) & (unsigned) ~3`. */
  function Pad4(n: nat): nat {
    Bits.And(n + 3, NOT_THREE)
  }

  lemma Pad4Value(n: nat)
    requires n < 0x1_0000
    ensures Pad4(n) == (n + 3) / 4 * 4
  {
    var x := n + 3;
    Bits.Pow2Values();
    Bits.AndOnes(x / 4, 30);
    assert Bits.And(x, NOT_THREE) == 2 * Bits.And(x / 2, 0x7FFF_FFFE);
    assert x / 2 == 0 || Bits.And(x / 2, 0x7FFF_FFFE) == 2 * Bits.And(x / 2 / 2, 0x3FFF_FFFF);
    assert x / 2 / 2 == x / 4;
  }

  /** The padded length is the least multiple of four that is not below n. */
  lemma Pad4Least(n: nat)
    requires n < 0x1_0000
    ensures Pad4(n) % 4 == 0 && n <= Pad4(n)
    ensures forall m: nat | m % 4 == 0 && n <= m :: Pad4(n) <= m
  {
    hide Pad4;
    Pad4Value(n);
    forall m: nat | m % 4 == 0 && n <= m
      ensures Pad4(n) <= m
    {
      LeastMultiple(n, m);
    }
    LeastMultiple(n, n + 3 - (n + 3) % 4);
  }

  lemma LeastMultiple(n: nat, m: nat)
    requires m % 4 == 0 && n <= m
    ensures n <= (n + 3) / 4 * 4 <= m && (n + 3) / 4 * 4 % 4 == 0
  {
  }

  datatype ByteOrder = MsbFirst | LsbFirst

  function OrderOf(b: byte): Option<ByteOrder> {
    if b == 0x42 then Some(MsbFirst) else if b == 0x6c then Some(LsbFirst) else None
  }

  /** A 16-bit number stored in the octets a, b, as the code reads it: one octet or-ed with the other shifted left by 8. */
  function Card16(order: ByteOrder, a: byte, b: byte): nat {
    match order
    case MsbFirst => Bits.Or(b, 256 * a)
    case LsbFirst => Bits.Or(a, 256 * b)
  }

  lemma Card16Value(order: ByteOrder, a: byte, b: byte)
    ensures Card16(order, a, b) == (if order.MsbFirst? then 256 * a + b else a + 256 * b)
    ensures Card16(order, a, b) < 0x1_0000
  {
    Bits.Pow2Values();
    Bits.OrDisjoint(b, a, 8);
    Bits.OrDisjoint(a, b, 8);
  }

  // ---------------------------------------------------------------- reference

  /** A complete setup packet, cut at its field boundaries; `rest` is whatever was read after it. */
  datatype Setup = Setup(
    head: seq<byte>,
    name: seq<byte>, namePad: seq<byte>,
    data: seq<byte>, dataPad: seq<byte>,
    rest: seq<byte>)

  function Unparse(s: Setup): seq<byte> {
    s.head + s.name + s.namePad + s.data + s.dataPad + s.rest
  }

  function NameLength(head: seq<byte>, order: ByteOrder): nat
    requires |head| >= FIXED_PART
  {
    Card16(order, head[6], head[7])
  }

  function DataLength(head: seq<byte>, order: ByteOrder): nat
    requires |head| >= FIXED_PART
  {
    Card16(order, head[8], head[9])
  }

  /** The header announces exactly the fields that follow it. */
  predicate WellFormed(s: Setup) {
    && |s.head| == FIXED_PART
    && OrderOf(s.head[0]).Some?
    && var order := OrderOf(s.head[0]).value;
       && |s.name| == NameLength(s.head, order)
       && |s.name| + |s.namePad| == Pad4(|s.name|)
       && |s.data| == DataLength(s.head, order)
       && |s.data| + |s.dataPad| == Pad4(|s.data|)
  }

  /** Cut a byte string into a setup packet, if it starts with a complete one. */
  function Parse(b: seq<byte>): Option<Setup> {
    if |b| < FIXED_PART || OrderOf(b[0]).None? then None
    else
      var order := OrderOf(b[0]).value;
      var nameLen, dataLen := NameLength(b, order), DataLength(b, order);
      var namePadded, dataPadded := Pad4(nameLen), Pad4(dataLen);
      if |b| < FIXED_PART + namePadded + dataPadded then None
      else
        Card16Value(order, b[6], b[7]); Card16Value(order, b[8], b[9]);
        Pad4Least(nameLen); Pad4Least(dataLen);
        var d := FIXED_PART + namePadded;
        Some(Setup(
          b[..FIXED_PART],
          b[FIXED_PART..FIXED_PART + nameLen], b[FIXED_PART + nameLen..d],
          b[d..d + dataLen], b[d + dataLen..d + dataPadded],
          b[d + dataPadded..]))
  }

  lemma UnparseParse(b: seq<byte>)
    requires Parse(b).Some?
    ensures WellFormed(Parse(b).value) && Unparse(Parse(b).value) == b
  {
    hide Pad4, Card16, Unparse, Parse;
    ParseCuts(b);
    var s := Parse(b).value;
    assert forall i | 0 <= i < FIXED_PART :: s.head[i] == b[i];
    assert NameLength(s.head, OrderOf(b[0]).value) == |s.name| && DataLength(s.head, OrderOf(b[0]).value) == |s.data|;
    UnparseCut(b, s, FIXED_PART, |s.name|, |s.namePad|, |s.data|, |s.dataPad|);
  }

  /** The fields are consecutive pieces of the string, of the announced lengths. */
  lemma ParseCuts(b: seq<byte>)
    requires Parse(b).Some?
    ensures |b| >= FIXED_PART && OrderOf(b[0]).Some?
    ensures var s, order := Parse(b).value, OrderOf(b[0]).value;
            var d := FIXED_PART + |s.name| + |s.namePad|;
            var e := d + |s.data| + |s.dataPad|;
            && |s.name| == NameLength(b, order) && |s.name| + |s.namePad| == Pad4(|s.name|)
            && |s.data| == DataLength(b, order) && |s.data| + |s.dataPad| == Pad4(|s.data|)
            && e <= |b| && s.head == b[..FIXED_PART] && s.name == b[FIXED_PART..FIXED_PART + |s.name|]
            && s.namePad == b[FIXED_PART + |s.name|..d] && s.data == b[d..d + |s.data|]
            && s.dataPad == b[d + |s.data|..e] && s.rest == b[e..]
  {
    hide Pad4, Card16;
    var order := OrderOf(b[0]).value;
    Card16Value(order, b[6], b[7]);
    Card16Value(order, b[8], b[9]);
    Pad4Least(NameLength(b, order));
    Pad4Least(DataLength(b, order));
  }

  lemma UnparseCut(b: seq<byte>, s: Setup, h: nat, n: nat, np: nat, d: nat, dp: nat)
    requires h + n + np + d + dp <= |b|
    requires s == Setup(b[..h], b[h..h + n], b[h + n..h + n + np],
                        b[h + n + np..h + n + np + d], b[h + n + np + d..h + n + np + d + dp], b[h + n + np + d + dp..])
    ensures Unparse(s) == b
  {
    Rejoin(b, h, h + n);
    Rejoin(b, h + n, h + n + np);
    Rejoin(b, h + n + np, h + n + np + d);
    Rejoin(b, h + n + np + d, h + n + np + d + dp);
  }

  lemma Rejoin(b: seq<byte>, i: nat, j: nat)
    requires i <= j <= |b|
    ensures b[..i] + b[i..j] + b[j..] == b
  {
  }

  lemma ParseUnparse(s: Setup)
    requires WellFormed(s)
    ensures Parse(Unparse(s)) == Some(s)
  {
    hide Pad4, Card16;
    var b := Unparse(s);
    assert b[..FIXED_PART] == s.head;
    assert forall i | 0 <= i < FIXED_PART :: b[i] == b[..FIXED_PART][i];
    var p := Parse(b).value;
    assert p.head == s.head && p.name == s.name && p.namePad == s.namePad;
    assert p.data == s.data && p.dataPad == s.dataPad && p.rest == s.rest;
  }

  /** What forwarding must do to the first chunk: put the saved cookie in place of the fake one. */
  function Rewrite(b: seq<byte>, saved: seq<byte>, fake: seq<byte>): seq<byte> {
    match Parse(b)
    case None => b
    case Some(s) => if s.data == fake then Unparse(s.(data := saved)) else b
  }

  /** The buffer starts with a complete packet whose authentication data is `cookie`. */
  predicate Carries(b: seq<byte>, cookie: seq<byte>) {
    Parse(b).Some? && Parse(b).value.data == cookie
  }

  // ---------------------------------------------------------------- the code

  /** `memcpy(buf + at, data, |data|)`. */
  method Memcpy(buf: array<byte>, at: nat, data: seq<byte>)
    requires at + |data| <= buf.Length
    modifies buf
    ensures buf[..] == old(buf[..at]) + data + old(buf[at + |data|..])
  {
    forall i | 0 <= i < |data| {
      buf[at + i] := data[i];
    }
  }

  /** `io_check_auth_data` after its once-only guard: parse the first `avail` octets and patch them in place. */
  method CheckSetupPacket(buf: array<byte>, avail: nat, saved: seq<byte>, fake: seq<byte>)
    requires avail <= buf.Length && |saved| == |fake|
    modifies buf
    ensures buf[..] == Rewrite(old(buf[..avail]), saved, fake) + old(buf[avail..])
  {
    hide Pad4, Card16, Parse, Rewrite;
    ghost var was, tail := buf[..avail], buf[avail..];
    assert buf[..] == was + tail;
    assert buf[..][..avail] == was;
    if avail < FIXED_PART {
      TooShort(was, saved, fake);
      return;
    }
    var order: ByteOrder;
    if buf[0] == 0x42 {
      order := MsbFirst;
    } else if buf[0] == 0x6c {
      order := LsbFirst;
    } else {
      TooShort(was, saved, fake);
      return;
    }
    var protoLen := Card16(order, buf[6], buf[7]);
    var dataLen := Card16(order, buf[8], buf[9]);
    var d := FIXED_PART + Pad4(protoLen);
    var expected := d + Pad4(dataLen);
    RewriteByFields(was, order, protoLen, dataLen, saved, fake);
    if avail < expected {
      return;
    }
    if protoLen == 0 && dataLen == 0 {
      return;
    }
    assert dataLen <= Pad4(dataLen);
    if dataLen != |fake| {
      return;
    }
    assert buf[d..d + |fake|] == was[d..d + |fake|];
    if buf[d..d + |fake|] != fake {
      return;
    }
    PatchBeforeTail(was, tail, d, saved);
    Memcpy(buf, d, saved);
  }

  lemma TooShort(b: seq<byte>, saved: seq<byte>, fake: seq<byte>)
    requires |b| < FIXED_PART || OrderOf(b[0]).None?
    ensures Rewrite(b, saved, fake) == b
  {
  }

  /** A patch inside the first part of a buffer leaves the second part alone. */
  lemma PatchBeforeTail(b: seq<byte>, tail: seq<byte>, d: nat, data: seq<byte>)
    requires d + |data| <= |b|
    ensures (b + tail)[..d] + data + (b + tail)[d + |data|..] == b[..d] + data + b[d + |data|..] + tail
    ensures (b + tail)[d..d + |data|] == b[d..d + |data|]
  {
    assert (b + tail)[..d] == b[..d];
    assert (b + tail)[d + |data|..] == b[d + |data|..] + tail;
  }

  /** The rewrite in terms of the numbers the code computes. */
  lemma RewriteByFields(
    b: seq<byte>, order: ByteOrder, protoLen: nat, dataLen: nat, saved: seq<byte>, fake: seq<byte>)
    requires |b| >= FIXED_PART && OrderOf(b[0]) == Some(order) && |saved| == |fake|
    requires protoLen == NameLength(b, order) && dataLen == DataLength(b, order)
    ensures dataLen <= Pad4(dataLen)
    ensures var d := FIXED_PART + Pad4(protoLen);
            Rewrite(b, saved, fake) ==
              if d + Pad4(dataLen) <= |b| && dataLen == |fake| && b[d..d + |fake|] == fake
              then b[..d] + saved + b[d + |saved|..]
              else b
    ensures protoLen == 0 && dataLen == 0 ==> Rewrite(b, saved, fake) == b
  {
    hide Pad4, Card16, Unparse, NameLength, DataLength;
    ParseFields(b, order, protoLen, dataLen);
    if Parse(b).Some? {
      var s := Parse(b).value;
      if |s.data| == |saved| {
        PatchIsUnparse(b, saved);
      }
      if protoLen == 0 && dataLen == 0 && s.data == fake {
        assert saved == s.data;
        UnparseParse(b);
      }
    }
  }

  /** Where the data field lies. */
  lemma ParseFields(b: seq<byte>, order: ByteOrder, protoLen: nat, dataLen: nat)
    requires |b| >= FIXED_PART && OrderOf(b[0]) == Some(order)
    requires protoLen == NameLength(b, order) && dataLen == DataLength(b, order)
    ensures dataLen <= Pad4(dataLen)
    ensures var d := FIXED_PART + Pad4(protoLen);
            && (Parse(b).Some? <==> d + Pad4(dataLen) <= |b|)
            && (Parse(b).Some? ==>
                  var s := Parse(b).value;
                  && s.data == b[d..d + dataLen] && |s.data| == dataLen
                  && |s.head| + |s.name| + |s.namePad| == d)
  {
    hide Pad4, Card16;
    Card16Value(order, b[6], b[7]);
    Card16Value(order, b[8], b[9]);
    Pad4Least(protoLen);
    Pad4Least(dataLen);
  }

  /** Overwriting the data field in place is the same as unparsing with new data. */
  lemma PatchIsUnparse(b: seq<byte>, saved: seq<byte>)
    requires Parse(b).Some? && |Parse(b).value.data| == |saved|
    ensures var s := Parse(b).value;
            var d := |s.head| + |s.name| + |s.namePad|;
            && d + |saved| <= |b|
            && Unparse(s.(data := saved)) == b[..d] + saved + b[d + |saved|..]
  {
    var s := Parse(b).value;
    var d := |s.head| + |s.name| + |s.namePad|;
    UnparseParse(b);
    assert b[..d] == s.head + s.name + s.namePad;
    assert b[d + |saved|..] == s.dataPad + s.rest;
  }

  // ------------------------------------------------------------- correctness

  /** The rewrite keeps the length and every octet outside the data field. */
  lemma RewriteFrame(b: seq<byte>, saved: seq<byte>, fake: seq<byte>)
    requires |saved| == |fake|
    ensures |Rewrite(b, saved, fake)| == |b|
    ensures !Carries(b, fake) ==> Rewrite(b, saved, fake) == b
    ensures Carries(b, fake) ==>
              var s := Parse(b).value;
              var d := |s.head| + |s.name| + |s.namePad|;
              forall i | 0 <= i < |b| && !(d <= i < d + |fake|) :: Rewrite(b, saved, fake)[i] == b[i]
  {
    hide Pad4, Card16, Parse, Unparse;
    if Carries(b, fake) {
      PatchIsUnparse(b, saved);
    }
  }

  /** A rewritten packet re-parses to the same packet with the saved cookie in it. */
  lemma RewriteReparses(b: seq<byte>, saved: seq<byte>, fake: seq<byte>)
    requires |saved| == |fake| && Carries(b, fake)
    ensures Parse(Rewrite(b, saved, fake)) == Some(Parse(b).value.(data := saved))
  {
    UnparseParse(b);
    ParseUnparse(Parse(b).value.(data := saved));
  }

  /**
   Swapping the two cookies undoes the rewrite, except on a packet that already
   carries the saved cookie: that one the swapped run would change.
   */
  lemma SwappedRewriteRestores(b: seq<byte>, saved: seq<byte>, fake: seq<byte>)
    requires |saved| == |fake| && saved != fake
    ensures Rewrite(Rewrite(b, saved, fake), fake, saved) == b <==> !Carries(b, saved)
  {
    if Carries(b, fake) {
      RewriteReparses(b, saved, fake);
      UnparseParse(b);
      assert Parse(b).value.(data := saved).(data := fake) == Parse(b).value;
    } else if Carries(b, saved) {
      RewriteReparses(b, fake, saved);
    }
  }

  /** No chunk shows the fake cookie after the rewrite, and the saved one shows exactly in chunks that carried either. */
  lemma RewriteHidesFake(b: seq<byte>, saved: seq<byte>, fake: seq<byte>)
    requires |saved| == |fake| && saved != fake
    ensures !Carries(Rewrite(b, saved, fake), fake)
    ensures Carries(Rewrite(b, saved, fake), saved) <==> Carries(b, fake) || Carries(b, saved)
  {
    if Carries(b, fake) {
      RewriteReparses(b, saved, fake);
    }
  }

  /** The length of a packet up to its padding. */
  function Extent(s: Setup): nat {
    |s.head| + |s.name| + |s.namePad| + |s.data| + |s.dataPad|
  }

  /** The start of a string is a complete packet exactly if it reaches to the end of the packet the string starts with. */
  lemma ParseOfPrefix(b: seq<byte>, first: nat)
    requires first <= |b|
    ensures Parse(b[..first]).Some? <==> Parse(b).Some? && Extent(Parse(b).value) <= first
    ensures Parse(b[..first]).Some? ==>
              Parse(b[..first]).value == Parse(b).value.(rest := b[Extent(Parse(b).value)..first])
  {
    hide Pad4, Card16, Parse;
    var c := b[..first];
    if first < FIXED_PART || OrderOf(b[0]).None? {
      StartsNone(c);
      if |b| < FIXED_PART || OrderOf(b[0]).None? {
        StartsNone(b);
      } else {
        ExtentAtLeast(b);
      }
    } else {
      var order := OrderOf(b[0]).value;
      assert c[0] == b[0] && NameLength(c, order) == NameLength(b, order) && DataLength(c, order) == DataLength(b, order);
      ParseFields(b, order, NameLength(b, order), DataLength(b, order));
      ParseFields(c, order, NameLength(c, order), DataLength(c, order));
      if Parse(b).Some? {
        ParseCuts(b);
      }
      if Parse(c).Some? {
        ParseCuts(c);
      }
    }
  }

  lemma StartsNone(b: seq<byte>)
    requires |b| < FIXED_PART || OrderOf(b[0]).None?
    ensures Parse(b).None?
  {
  }

  lemma ExtentAtLeast(b: seq<byte>)
    ensures Parse(b).Some? ==> Extent(Parse(b).value) >= FIXED_PART
  {
    hide Pad4, Card16;
    if Parse(b).Some? {
      ParseCuts(b);
    }
  }

  // ------------------------------------------------- packets octet by octet

  /** A 16-bit number as two octets in either order. */
  function TwoOctets(msb: bool, n: nat): seq<byte>
    requires n < 0x1_0000
  {
    if msb then [n / 256, n % 256] else [n % 256, n / 256]
  }

  /**
   A connection setup packet as the protocol lays it out: byte order, an
   unused octet, two version numbers, the lengths of the authorization
   protocol's name and data, two unused octets, then the two strings, each
   padded to a multiple of four.
   */
  function SetupPacket(
    msb: bool, u: byte, version: seq<byte>, w: seq<byte>,
    name: seq<byte>, namePad: seq<byte>, data: seq<byte>, dataPad: seq<byte>, rest: seq<byte>): seq<byte>
    requires |name| < 0x1_0000 && |data| < 0x1_0000
  {
    [if msb then 0x42 else 0x6c, u] + version + TwoOctets(msb, |name|) + TwoOctets(msb, |data|) + w
    + name + namePad + data + dataPad + rest
  }

  lemma SetupHead(msb: bool, u: byte, version: seq<byte>, w: seq<byte>, n: nat, d: nat)
    requires |version| == 4 && |w| == 2 && n < 0x1_0000 && d < 0x1_0000
    ensures var head := [if msb then 0x42 else 0x6c, u] + version + TwoOctets(msb, n) + TwoOctets(msb, d) + w;
            && |head| == FIXED_PART && OrderOf(head[0]) == Some(if msb then MsbFirst else LsbFirst)
            && NameLength(head, OrderOf(head[0]).value) == n && DataLength(head, OrderOf(head[0]).value) == d
  {
    hide Card16;
    var head := [if msb then 0x42 else 0x6c, u] + version + TwoOctets(msb, n) + TwoOctets(msb, d) + w;
    var order := if msb then MsbFirst else LsbFirst;
    Card16Value(order, head[6], head[7]);
    Card16Value(order, head[8], head[9]);
    assert head[6] == TwoOctets(msb, n)[0] && head[7] == TwoOctets(msb, n)[1];
    assert head[8] == TwoOctets(msb, d)[0] && head[9] == TwoOctets(msb, d)[1];
  }

  /** The packet with the fake cookie becomes the packet with the saved one; a packet with other data is left alone. */
  lemma SetupPacketRewritten(
    msb: bool, u: byte, version: seq<byte>, w: seq<byte>,
    name: seq<byte>, namePad: seq<byte>, data: seq<byte>, dataPad: seq<byte>, rest: seq<byte>,
    saved: seq<byte>, fake: seq<byte>)
    requires |version| == 4 && |w| == 2 && |name| < 0x1_0000 && |data| < 0x1_0000
    requires |namePad| < 4 && (|name| + |namePad|) % 4 == 0 && |dataPad| < 4 && (|data| + |dataPad|) % 4 == 0
    requires |saved| == |fake|
    ensures Rewrite(SetupPacket(msb, u, version, w, name, namePad, data, dataPad, rest), saved, fake)
         == SetupPacket(msb, u, version, w, name, namePad, if data == fake then saved else data, dataPad, rest)
  {
    hide Pad4, Card16, NameLength, DataLength, OrderOf, Parse;
    var head := [if msb then 0x42 else 0x6c, u] + version + TwoOctets(msb, |name|) + TwoOctets(msb, |data|) + w;
    var s := Setup(head, name, namePad, data, dataPad, rest);
    SetupHead(msb, u, version, w, |name|, |data|);
    PaddedLength(|name|, |namePad|);
    PaddedLength(|data|, |dataPad|);
    assert Unparse(s) == SetupPacket(msb, u, version, w, name, namePad, data, dataPad, rest);
    ParseUnparse(s);
  }

  lemma PaddedLength(n: nat, pad: nat)
    requires n < 0x1_0000 && pad < 4 && (n + pad) % 4 == 0
    ensures Pad4(n) == n + pad
  {
    hide Pad4;
    Pad4Value(n);
  }
}

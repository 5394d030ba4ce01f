/** The stream between client and session server: octets, some with descriptors attached. */
module Wire {
  import opened Bytes

  /** An open file passed over the stream. */
  type File = int

  /** One octet in flight, with the files of a control message that rides on it, if any. */
  datatype Cell = Cell(octet: byte, files: seq<File>)

  const U32 := 0x1_0000_0000

  function Octets(cells: seq<Cell>): (r: seq<byte>)
    ensures |r| == |cells|
  {
    seq(|cells|, i requires 0 <= i < |cells| => cells[i].octet)
  }

  function Plain(octets: seq<byte>): (r: seq<Cell>)
    ensures |r| == |octets| && Octets(r) == octets
  {
    var r := seq(|octets|, i requires 0 <= i < |octets| => Cell(octets[i], []));
    assert Octets(r) == octets;
    r
  }

  /** A 32-bit number in memory order, least significant octet first. */
  function Encode32(n: nat): (r: seq<byte>)
    requires n < U32
    ensures |r| == 4
  {
    [n % 0x100, n / 0x100 % 0x100, n / 0x1_0000 % 0x100, n / 0x100_0000]
  }

  function Decode32(s: seq<byte>): (n: nat)
    requires |s| == 4
    ensures n < U32
  {
    var n: int := s[0];
    n + 0x100 * (s[1] as int) + 0x1_0000 * (s[2] as int) + 0x100_0000 * (s[3] as int)
  }

  lemma Decode32Encode32(n: nat)
    requires n < U32
    ensures Decode32(Encode32(n)) == n
  {
    assert n / 0x100 / 0x100 == n / 0x1_0000 && n / 0x1_0000 / 0x100 == n / 0x100_0000;
  }

  /** `cmd_header_t`. */
  const HEADER_SIZE := 8

  datatype Header = Header(kind: nat, len: nat)

  function EncodeHeader(kind: nat, len: nat): (r: seq<Cell>)
    requires kind < U32 && len < U32
    ensures |r| == HEADER_SIZE
  {
    Plain(Encode32(kind) + Encode32(len))
  }

  function DecodeHeader(cells: seq<Cell>): Header
    requires |cells| >= HEADER_SIZE
  {
    var o := Octets(cells);
    Header(Decode32(o[..4]), Decode32(o[4..8]))
  }

  lemma OctetsConcat(a: seq<Cell>, b: seq<Cell>)
    ensures Octets(a + b) == Octets(a) + Octets(b)
  {
  }

  lemma HeaderRoundTrip(kind: nat, len: nat, rest: seq<Cell>)
    requires kind < U32 && len < U32
    ensures DecodeHeader(EncodeHeader(kind, len) + rest) == Header(kind, len)
    ensures (EncodeHeader(kind, len) + rest)[HEADER_SIZE..] == rest
  {
    var h := EncodeHeader(kind, len);
    OctetsConcat(h, rest);
    var o := Octets(h + rest);
    assert Octets(h) == Encode32(kind) + Encode32(len);
    assert o[..4] == Encode32(kind) && o[4..8] == Encode32(len);
    Decode32Encode32(kind);
    Decode32Encode32(len);
  }

  /** `fd_recv` for n descriptors: one octet must carry exactly n files. */
  function TakeFiles(cells: seq<Cell>, n: nat): (r: Option<seq<File>>)
    ensures r.Some? ==> |r.value| == n
  {
    if cells == [] || |cells[0].files| != n then None else Some(cells[0].files)
  }
}

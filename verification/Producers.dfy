/** How the three producers cut a bitstream into FIFO entries, and that the cut never shows
    on the wire: driver, flasher and flash boot all stand for the same bytes. */
module Producers {
  import opened Bytes
  import opened Serialiser

  /** Byte order of the host CPU. */
  datatype Endian = Little | Big

  /** A `uint32_t` loaded from memory; the word lists the value's bytes, most significant first. */
  function LoadU32(e: Endian, memory: Word): Word {
    if e.Little? then Reversed(memory) else memory
  }

  /** The memory image of a stored `uint32_t`. */
  function StoreU32(e: Endian, value: Word): Word {
    if e.Little? then Reversed(value) else value
  }

  function Htonl(e: Endian, value: Word): Word {
    if e.Little? then Reversed(value) else value
  }

  /** The driver swaps once and `iowrite32be` presents the value's bytes in order. */
  lemma DriverWordOrder(e: Endian, memory: Word)
    ensures Htonl(e, LoadU32(e, memory)) == memory
  {
  }

  /** The flasher swaps twice and stores natively; the big-endian bus sees the same word. */
  lemma FlasherWordOrder(e: Endian, memory: Word)
    ensures StoreU32(e, Htonl(e, Htonl(e, LoadU32(e, memory)))) == memory
  {
  }

  type Group = seq<Byte>

  /** A buffer cut into groups of four bytes, the last one possibly shorter. */
  function Groups4(bytes: seq<Byte>): (gs: seq<Group>)
    ensures forall g :: g in gs ==> 1 <= |g| <= 4
  {
    if bytes == [] then []
    else if |bytes| <= 4 then [bytes]
    else [bytes[..4]] + Groups4(bytes[4..])
  }

  function Flatten(gs: seq<seq<Byte>>): seq<Byte> {
    if gs == [] then [] else gs[0] + Flatten(gs[1..])
  }

  lemma FlattenFirst(gs: seq<seq<Byte>>)
    ensures Flatten(gs) == if gs == [] then [] else gs[0] + Flatten(gs[1..])
  {
  }

  lemma {:induction false} FlattenConcat(a: seq<seq<Byte>>, b: seq<seq<Byte>>)
    ensures Flatten(a + b) == Flatten(a) + Flatten(b)
  {
    hide Flatten;
    FlattenFirst(a);
    if a == [] {
      assert a + b == b;
    } else {
      FlattenConcat(a[1..], b);
      FlattenFirst(a + b);
      assert (a + b)[1..] == a[1..] + b;
    }
  }

  lemma {:induction false} Groups4Flat(bytes: seq<Byte>)
    ensures Flatten(Groups4(bytes)) == bytes
  {
    if |bytes| > 4 {
      Groups4Flat(bytes[4..]);
      assert Groups4(bytes)[1..] == Groups4(bytes[4..]);
      assert bytes == bytes[..4] + bytes[4..];
    } else if bytes != [] {
      assert Groups4(bytes)[1..] == [];
    }
  }

  /** One more group at a word boundary. */
  lemma {:induction false} Groups4Snoc(bytes: seq<Byte>, g: Group)
    requires |bytes| % 4 == 0 && 1 <= |g| <= 4
    ensures Groups4(bytes + g) == Groups4(bytes) + [g]
  {
    if bytes == [] {
      assert bytes + g == g;
    } else if |bytes| == 4 {
      assert (bytes + g)[..4] == bytes && (bytes + g)[4..] == g;
    } else {
      assert (bytes + g)[..4] == bytes[..4] && (bytes + g)[4..] == bytes[4..] + g;
      Groups4Snoc(bytes[4..], g);
    }
  }

  /** What the driver consumes over a sequence of `write` calls. */
  function DriverGroups(chunks: seq<seq<Byte>>): seq<Group> {
    if chunks == [] then [] else DriverGroups(chunks[..|chunks| - 1]) + Groups4(chunks[|chunks| - 1])
  }

  lemma DriverGroupsLast(chunks: seq<seq<Byte>>)
    requires chunks != []
    ensures DriverGroups(chunks) == DriverGroups(chunks[..|chunks| - 1]) + Groups4(chunks[|chunks| - 1])
  {
  }

  lemma {:induction false} DriverGroupsFlat(chunks: seq<seq<Byte>>)
    ensures Flatten(DriverGroups(chunks)) == Flatten(chunks)
    ensures forall g :: g in DriverGroups(chunks) ==> 1 <= |g| <= 4
  {
    if chunks != [] {
      hide Flatten, DriverGroups, Groups4;
      var n := |chunks| - 1;
      DriverGroupsLast(chunks);
      DriverGroupsFlat(chunks[..n]);
      Groups4Flat(chunks[n]);
      FlattenConcat(DriverGroups(chunks[..n]), Groups4(chunks[n]));
      FlattenConcat(chunks[..n], [chunks[n]]);
      assert chunks == chunks[..n] + [chunks[n]];
      FlattenOne(chunks[n]);
    }
  }

  lemma FlattenOne(bytes: seq<Byte>)
    ensures Flatten([bytes]) == bytes
  {
  }

  function Unmarked(gs: seq<Group>): (ps: seq<Payload>)
    ensures |ps| == |gs|
    ensures forall j :: 0 <= j < |gs| ==> ps[j] == Payload(gs[j], false)
  {
    seq(|gs|, j requires 0 <= j < |gs| => Payload(gs[j], false))
  }

  /** The groups as payloads, the final one marked XLAST. */
  function Marked(gs: seq<Group>): (ps: seq<Payload>)
    ensures |ps| == |gs|
  {
    if gs == [] then [] else Unmarked(gs[..|gs| - 1]) + [Payload(gs[|gs| - 1], true)]
  }

  /** The entries of `program_afpga`: only a final short word carries XLAST. */
  function AfpgaPayloads(bytes: seq<Byte>): seq<Payload> {
    var gs := Groups4(bytes);
    if |bytes| % 4 == 0 then Unmarked(gs) else Marked(gs)
  }

  /** The entries of the flash boot machine: one byte each, never marked. */
  function FlashPayloads(bytes: seq<Byte>): (ps: seq<Payload>)
    ensures |ps| == |bytes|
  {
    seq(|bytes|, j requires 0 <= j < |bytes| => Payload([bytes[j]], false))
  }

  lemma {:induction false} StreamOfGroups(ps: seq<Payload>, gs: seq<Group>)
    requires |ps| == |gs| && forall j :: 0 <= j < |gs| ==> ps[j].bytes == gs[j]
    ensures Stream(ps) == Flatten(gs)
  {
    if gs != [] {
      var n := |gs| - 1;
      StreamOfGroups(ps[..n], gs[..n]);
      FlattenConcat(gs[..n], [gs[n]]);
      assert gs == gs[..n] + [gs[n]];
      assert Flatten([gs[n]]) == gs[n];
    }
  }

  lemma {:induction false} FlashStream(bytes: seq<Byte>)
    ensures Stream(FlashPayloads(bytes)) == bytes
  {
    if bytes != [] {
      var n := |bytes| - 1;
      FlashStream(bytes[..n]);
      assert FlashPayloads(bytes)[..n] == FlashPayloads(bytes[..n]);
      assert bytes == bytes[..n] + [bytes[n]];
    }
  }

  lemma MarkedStream(gs: seq<Group>)
    ensures Stream(Marked(gs)) == Flatten(gs) == Stream(Unmarked(gs))
  {
    hide Stream, Flatten;
    if gs != [] {
      assert gs == gs[..|gs| - 1] + [gs[|gs| - 1]];
    }
    StreamOfGroups(Marked(gs), gs);
    StreamOfGroups(Unmarked(gs), gs);
  }

  /** For the same bytes, in any chunking, the three producers give the serialiser the same
      bit sequence, and it is the bytes themselves, MSB first. */
  lemma ProducersAgree(chunks: seq<seq<Byte>>)
    ensures Stream(Marked(DriverGroups(chunks))) == Flatten(chunks)
    ensures Stream(AfpgaPayloads(Flatten(chunks))) == Flatten(chunks)
    ensures Stream(FlashPayloads(Flatten(chunks))) == Flatten(chunks)
  {
    DriverGroupsFlat(chunks);
    MarkedStream(DriverGroups(chunks));
    Groups4Flat(Flatten(chunks));
    MarkedStream(Groups4(Flatten(chunks)));
    FlashStream(Flatten(chunks));
  }

  /** XLAST in a driver session: the last entry and no other, unless there is no entry at all.
      In `program_afpga`: only on the final entry, and only if the size is not a multiple of 4. */
  lemma XlastPlacement(chunks: seq<seq<Byte>>)
    ensures var ps := Marked(DriverGroups(chunks));
      && (ps == [] <==> Flatten(chunks) == [])
      && forall j :: 0 <= j < |ps| ==> (ps[j].last <==> j == |ps| - 1)
    ensures var ps := AfpgaPayloads(Flatten(chunks));
      forall j :: 0 <= j < |ps| ==> (ps[j].last <==> j == |ps| - 1 && |Flatten(chunks)| % 4 != 0)
  {
    DriverGroupsFlat(chunks);
    var gs := DriverGroups(chunks);
    if gs != [] {
      assert gs[0] in gs && Flatten(gs) == gs[0] + Flatten(gs[1..]);
    }
  }
}

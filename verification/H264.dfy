/** h264.c: scanning an H.264 byte stream for start codes, a word at a time, and sending its NAL
    units as single packets or FU-A fragments (section 5.8 of RFC 3984). */
module H264 {
  import opened Arith

  type byte = bv8

  const NALU_FU_A: bv8 := 28

  // ---- start codes -------------------------------------------------------------

  predicate StartCode(buf: seq<byte>, p: int) {
    0 <= p && p + 2 < |buf| && buf[p] == 0 && buf[p + 1] == 0 && buf[p + 2] == 1
  }

  /** The least p in [from, |buf| - 3) that holds 00 00 01, else |buf|. */
  ghost predicate IsNext(buf: seq<byte>, from: int, r: int) {
    && (forall q :: from <= q < r && q < |buf| - 3 ==> !StartCode(buf, q))
    && (r == |buf| || (from <= r < |buf| - 3 && StartCode(buf, r)))
  }

  function Word(a: bv8, b: bv8, c: bv8, d: bv8): bv32 {
    (a as bv32) | ((b as bv32) << 8) | ((c as bv32) << 16) | ((d as bv32) << 24)
  }

  function ZeroTest(x: bv32): bv32 {
    (x - 0x01010101) & !x & 0x80808080
  }

  /** A word that fails the test has no zero byte. */
  lemma NoZeroByte(a: bv8, b: bv8, c: bv8, d: bv8)
    requires ZeroTest(Word(a, b, c, d)) == 0
    ensures a != 0 && b != 0 && c != 0 && d != 0
  {
  }

  /** The offset of the first start code that begins in the word at p, or 4. */
  method InWord(buf: seq<byte>, p: nat) returns (at: nat)
    requires p + 5 < |buf|
    ensures at <= 4 && (at < 4 ==> StartCode(buf, p + at))
    ensures forall q :: p <= q < p + at ==> !StartCode(buf, q)
  {
    var x := Word(buf[p], buf[p + 1], buf[p + 2], buf[p + 3]);
    if ZeroTest(x) != 0 {
      if buf[p + 1] == 0 {
        if buf[p] == 0 && buf[p + 2] == 1 { return 0; }
        if buf[p + 2] == 0 && buf[p + 3] == 1 { return 1; }
      }
      if buf[p + 3] == 0 {
        if buf[p + 2] == 0 && buf[p + 4] == 1 { return 2; }
        if buf[p + 4] == 0 && buf[p + 5] == 1 { return 3; }
      }
    } else {
      NoZeroByte(buf[p], buf[p + 1], buf[p + 2], buf[p + 3]);
    }
    return 4;
  }

  /** h264_find_startcode; `address` is the address of buf[0]. Words are read aligned and inside
      the buffer. */
  method FindStartcode(buf: seq<byte>, start: nat, address: nat) returns (r: int)
    requires start <= |buf|
    ensures start <= r && IsNext(buf, start, r)
  {
    var p: int, end: int := start, |buf|;
    var a := p + 4 - (address + p) % 4;
    end := end - 3;
    while p < a && p < end
      invariant start <= p <= a && end == |buf| - 3
      invariant forall q :: start <= q < p ==> !StartCode(buf, q)
    {
      if buf[p] == 0 && buf[p + 1] == 0 && buf[p + 2] == 1 { return p; }
      p := p + 1;
    }
    end := end - 3;
    while p < end
      invariant start <= p && end == |buf| - 6 && (p < end ==> (address + p) % 4 == 0)
      invariant forall q :: start <= q < p && q < |buf| - 3 ==> !StartCode(buf, q)
    {
      assert (address + p) % 4 == 0 && p + 5 < |buf|;
      var at := InWord(buf, p);
      if at < 4 { return p + at; }
      p := p + 4;
    }
    end := end + 3;
    while p < end
      invariant start <= p && end == |buf| - 3
      invariant forall q :: start <= q < p && q < |buf| - 3 ==> !StartCode(buf, q)
    {
      if buf[p] == 0 && buf[p + 1] == 0 && buf[p + 2] == 1 { return p; }
      p := p + 1;
    }
    return end + 3;
  }

  // ---- NAL units ---------------------------------------------------------------

  function Next(buf: seq<byte>, from: nat): (r: nat)
    requires from <= |buf|
    ensures from <= r && IsNext(buf, from, r)
    decreases |buf| - from
  {
    if from >= |buf| - 3 then |buf|
    else if StartCode(buf, from) then from
    else Next(buf, from + 1)
  }

  lemma NextUnique(buf: seq<byte>, from: nat, r: int)
    requires from <= |buf| && IsNext(buf, from, r) && from <= r
    ensures r == Next(buf, from)
  {
  }

  /** The NAL units from the start code at r on: each runs from behind its start code to the next. */
  ghost function Nals(buf: seq<byte>, r: nat): seq<seq<byte>>
    requires r == |buf| || (r < |buf| - 3 && StartCode(buf, r))
    decreases |buf| - r
  {
    if r == |buf| then [] else [buf[r + 3..Next(buf, r + 3)]] + Nals(buf, Next(buf, r + 3))
  }

  ghost function AllNals(buf: seq<byte>): seq<seq<byte>> {
    Nals(buf, Next(buf, 0))
  }

  /** A byte stream: every unit behind a start code. */
  function Stream(nals: seq<seq<byte>>): seq<byte> {
    if nals == [] then [] else [0, 0, 1] + (nals[0] + Stream(nals[1..]))
  }

  lemma {:induction false} StreamFrom(buf: seq<byte>, r: nat)
    requires r == |buf| || (r < |buf| - 3 && StartCode(buf, r))
    ensures Stream(Nals(buf, r)) == buf[r..]
    decreases |buf| - r
  {
    hide IsNext;
    if r < |buf| {
      var r1, nals := Next(buf, r + 3), Nals(buf, r);
      FirstNal(buf, r);
      NextInside(buf, r + 3);
      StreamFrom(buf, r1);
      CodeAt(buf, r);
      hide StartCode, Nals, Next;
      Parts(buf, r, r + 3, r1);
    }
  }

  lemma Parts<T>(s: seq<T>, a: nat, b: nat, c: nat)
    requires a <= b <= c <= |s|
    ensures s[a..] == s[a..b] + (s[b..c] + s[c..])
  {
  }

  lemma CodeAt(buf: seq<byte>, r: nat)
    requires r < |buf| - 3 && StartCode(buf, r)
    ensures buf[r..r + 3] == [0, 0, 1]
  {
  }

  lemma NextInside(buf: seq<byte>, from: nat)
    requires from <= |buf|
    ensures from <= Next(buf, from) <= |buf|
    ensures var r := Next(buf, from); r == |buf| || (r < |buf| - 3 && StartCode(buf, r))
  {
  }

  /** The units with their start codes are the whole stream from the first start code on. */
  lemma StreamOfNals(buf: seq<byte>)
    ensures Stream(AllNals(buf)) == buf[Next(buf, 0)..]
  {
    StreamFrom(buf, Next(buf, 0));
  }

  // ---- packets -----------------------------------------------------------------

  datatype Packet = Packet(marker: bool, hdr: seq<byte>, payload: seq<byte>)

  function FuIndicator(hdr: byte): byte {
    (hdr & 0x60) | NALU_FU_A
  }

  /** The FU header byte of a fragment. */
  function FuHeader(start: bool, last: bool, hdr: byte): byte {
    (if start then 0x80 | (hdr & 0x1f) else hdr & 0x1f) | (if last then 0x40 else 0)
  }

  function ClearStartBit(fu: byte): byte {
    fu & !0x80
  }

  function SetEndBit(fu: byte): byte {
    fu | 0x40
  }

  /** The fragments of a unit with the given header byte. */
  ghost function Fragments(start: bool, last: bool, marker: bool, hdr: byte, buf: seq<byte>, sz: nat): seq<Packet>
    requires sz > 0
    decreases |buf|
  {
    var ind := FuIndicator(hdr);
    if |buf| > sz then
      [Packet(false, [ind, FuHeader(start, false, hdr)], buf[..sz])]
        + Fragments(false, last, marker, hdr, buf[sz..], sz)
    else
      [Packet(marker && last, [ind, FuHeader(start, last, hdr)], buf)]
  }

  ghost function Send(first: bool, last: bool, marker: bool, hdr: byte, buf: seq<byte>, maxsz: nat): seq<Packet>
    requires maxsz > 2
  {
    if first && last && |buf| <= maxsz then [Packet(marker, [hdr], buf)]
    else Fragments(first, last, marker, hdr, buf, maxsz - 2)
  }

  /** h264_nal_send, returning the packets handed to the callback. */
  method NalSend(first: bool, last: bool, marker: bool, hdr: byte, data: seq<byte>, maxsz: nat)
    returns (sent: seq<Packet>)
    requires maxsz > 2
    ensures sent == Send(first, last, marker, hdr, data, maxsz)
  {
    if first && last && |data| <= maxsz {
      return [Packet(marker, [hdr], data)];
    }
    hide FuHeader, FuIndicator, ClearStartBit, SetEndBit;
    HeaderBits(first, hdr);
    var sz := maxsz - 2;
    var fu0, fu1 := FuIndicator(hdr), FuHeader(first, false, hdr);
    var buf := data;
    sent := [];
    ghost var start, all := first, Fragments(first, last, marker, hdr, data, sz);
    while |buf| > sz
      invariant fu1 == FuHeader(start, false, hdr)
      invariant sent + Fragments(start, last, marker, hdr, buf, sz) == all
      decreases |buf|
    {
      ghost var rest, before := Fragments(start, last, marker, hdr, buf, sz), sent;
      sent := sent + [Packet(false, [fu0, fu1], buf[..sz])];
      assert rest == [Packet(false, [fu0, fu1], buf[..sz])] + Fragments(false, last, marker, hdr, buf[sz..], sz);
      buf := buf[sz..];
      HeaderBits(start, hdr);
      fu1 := ClearStartBit(fu1);
      start := false;
      assert before + rest == sent + Fragments(false, last, marker, hdr, buf, sz);
    }
    HeaderBits(start, hdr);
    if last { fu1 := SetEndBit(fu1); }
    sent := sent + [Packet(marker && last, [fu0, fu1], buf)];
  }

  /** fu_hdr[1] starts with the S bit if asked for; clearing S and setting E do just that. */
  lemma HeaderBits(start: bool, hdr: byte)
    ensures FuHeader(start, false, hdr) == if start then 0x80 | (hdr & 0x1f) else hdr & 0x1f
    ensures ClearStartBit(FuHeader(start, false, hdr)) == FuHeader(false, false, hdr)
    ensures SetEndBit(FuHeader(start, false, hdr)) == FuHeader(start, true, hdr)
  {
  }

  /** The same as sums: S, E and the type in one, the NRI and the type 28 in the other. */
  lemma HeaderFields(start: bool, last: bool, hdr: byte)
    ensures FuHeader(start, last, hdr) == (if start then 128 else 0) + (if last then 64 else 0) + hdr % 32
    ensures FuIndicator(hdr) == hdr / 32 % 4 * 32 + 28
  {
  }

  ghost function Packets(nals: seq<seq<byte>>, maxsz: nat): seq<Packet>
    requires maxsz > 2 && NoneEmpty(nals)
  {
    if nals == [] then []
    else Send(true, true, |nals| == 1, nals[0][0], nals[0][1..], maxsz) + Packets(nals[1..], maxsz)
  }

  /** One round of h264_packetize: skip the start code, find the next one, send what lies between. */
  method SendNal(buf: seq<byte>, r0: nat, pktsize: nat, address: nat) returns (sent: seq<Packet>, r1: int)
    requires pktsize > 2 && r0 < |buf| - 3 && StartCode(buf, r0) && Next(buf, r0 + 3) > r0 + 3
    ensures r1 == Next(buf, r0 + 3)
    ensures sent == Send(true, true, r1 == |buf|, buf[r0 + 3], buf[r0 + 4..r1], pktsize)
  {
    hide Send;
    var r := r0;
    while buf[r] == 0
      invariant r0 <= r <= r0 + 2
      decreases r0 + 2 - r
    {
      r := r + 1;
    }
    r := r + 1;
    assert r == r0 + 3;
    r1 := FindStartcode(buf, r, address);
    NextUnique(buf, r, r1);
    sent := NalSend(true, true, r1 >= |buf|, buf[r], buf[r + 1..r1], pktsize);
  }

  lemma FirstNal(buf: seq<byte>, r: nat)
    requires r < |buf| - 3 && StartCode(buf, r)
    ensures var r1, nals := Next(buf, r + 3), Nals(buf, r);
      nals != [] && nals[0] == buf[r + 3..r1] && nals[1..] == Nals(buf, r1) && (|nals| == 1 <==> r1 == |buf|)
  {
    var r1 := Next(buf, r + 3);
    if r1 < |buf| { assert Nals(buf, r1) != []; }
  }

  ghost predicate NoneEmpty(nals: seq<seq<byte>>) {
    forall k :: 0 <= k < |nals| ==> nals[k] != []
  }

  /** No start code directly follows another one. */
  predicate NoneAdjoin(buf: seq<byte>) {
    forall q: nat :: q + 3 < |buf| - 3 && StartCode(buf, q) ==> !StartCode(buf, q + 3)
  }

  /** A unit is empty exactly when its start code is followed by another one at once. */
  lemma EmptyNal(buf: seq<byte>, r: nat)
    requires r < |buf| - 3 && StartCode(buf, r)
    ensures Nals(buf, r) != []
    ensures Nals(buf, r)[0] == [] <==> r + 3 < |buf| - 3 && StartCode(buf, r + 3)
  {
    FirstNal(buf, r);
  }

  /** From the start code at r on: no unit is empty exactly when no two start codes adjoin. */
  lemma {:induction false} NoneEmptyFrom(buf: seq<byte>, r: nat)
    requires r == |buf| || (r < |buf| - 3 && StartCode(buf, r))
    ensures NoneEmpty(Nals(buf, r)) <==>
      forall q: nat :: r <= q && q + 3 < |buf| - 3 && StartCode(buf, q) ==> !StartCode(buf, q + 3)
    decreases |buf| - r
  {
    if r < |buf| {
      var r1, nals := Next(buf, r + 3), Nals(buf, r);
      FirstNal(buf, r);
      EmptyNal(buf, r);
      NoneEmptyFrom(buf, r1);
      assert NoneEmpty(nals) <==> nals[0] != [] && NoneEmpty(nals[1..]);
      assert !StartCode(buf, r + 1) && !StartCode(buf, r + 2);
    }
  }

  /** A stream holds no empty unit if and only if no two of its start codes adjoin. */
  lemma NoneEmptyExactly(buf: seq<byte>)
    ensures NoneEmpty(AllNals(buf)) <==> NoneAdjoin(buf)
  {
    hide Nals;
    NoneEmptyFrom(buf, Next(buf, 0));
  }

  /** For example, a stream of two start codes and a unit of one byte. */
  lemma EmptyUnitExample()
    ensures var buf: seq<byte> := [0, 0, 1, 0, 0, 1, 9]; !NoneAdjoin(buf) && AllNals(buf) == [[], [9]]
  {
    var buf: seq<byte> := [0, 0, 1, 0, 0, 1, 9];
    assert StartCode(buf, 0) && StartCode(buf, 3);
    assert Next(buf, 0) == 0 && Next(buf, 3) == 3 && Next(buf, 6) == 7;
    assert Nals(buf, 7) == [] && Nals(buf, 3) == [buf[6..7]] + Nals(buf, 7);
    assert Nals(buf, 0) == [buf[3..3]] + Nals(buf, 3);
    assert buf[6..7] == [9] && buf[3..3] == [];
    assert AllNals(buf) == Nals(buf, 0) == [[], [9]];
    var q: nat := 0;
    assert q + 3 < |buf| - 3 && StartCode(buf, q) && StartCode(buf, q + 3);
  }

  /** h264_packetize. An empty NAL unit makes the unsigned size wrap around, so none is allowed. */
  method Packetize(buf: seq<byte>, pktsize: nat, address: nat) returns (sent: seq<Packet>)
    requires pktsize > 2 && NoneAdjoin(buf)
    ensures NoneEmpty(AllNals(buf)) && sent == Packets(AllNals(buf), pktsize)
  {
    NoneEmptyExactly(buf);
    hide Send, StartCode, Nals;
    sent := [];
    var r: int := FindStartcode(buf, 0, address);
    NextUnique(buf, 0, r);
    ghost var all := AllNals(buf);
    NoMoreNals(buf);
    while r < |buf|
      invariant 0 <= r <= |buf| && (r == |buf| || (r < |buf| - 3 && StartCode(buf, r)))
      invariant NoneEmpty(Nals(buf, r))
      invariant sent + Packets(Nals(buf, r), pktsize) == Packets(all, pktsize)
      decreases |buf| - r
    {
      ghost var nals := Nals(buf, r);
      FirstNal(buf, r);
      assert nals[0] != [];
      var pkts, r1 := SendNal(buf, r, pktsize, address);
      assert nals[0][1..] == buf[r + 4..r1];
      assert NoneEmpty(nals[1..]) && Packets(nals, pktsize) == pkts + Packets(nals[1..], pktsize);
      sent := sent + pkts;
      r := r1;
    }
  }

  lemma NoMoreNals(buf: seq<byte>)
    ensures Nals(buf, |buf|) == []
  {
  }

  // ---- reassembly (section 5.8 of RFC 3984) -----------------------------------------

  predicate IsFuA(b: byte) {
    b & 0x1f == NALU_FU_A
  }

  predicate StartBit(fu: byte) {
    fu & 0x80 != 0
  }

  predicate EndBit(fu: byte) {
    fu & 0x40 != 0
  }

  /** The header of the fragmented unit: F and NRI from the indicator, the type from the FU header. */
  function UnitHeader(ind: byte, fu: byte): byte {
    (ind & 0xe0) | (fu & 0x1f)
  }

  /** Rebuild NAL units from packets; `part` is the unit being put together from fragments. */
  ghost function Reassemble(pkts: seq<Packet>, part: seq<byte>): seq<seq<byte>> {
    if pkts == [] then []
    else
      var bytes := pkts[0].hdr + pkts[0].payload;
      if |bytes| >= 2 && IsFuA(bytes[0]) then
        var unit := (if StartBit(bytes[1]) then [UnitHeader(bytes[0], bytes[1])] else part) + bytes[2..];
        if EndBit(bytes[1]) then [unit] + Reassemble(pkts[1..], []) else Reassemble(pkts[1..], unit)
      else
        [bytes] + Reassemble(pkts[1..], [])
  }

  function WithoutF(hdr: byte): byte {
    hdr & 0x7f
  }

  /** When a unit survives: one that is fragmented needs a zero forbidden_zero_bit, one sent whole
      must not look like a fragment. */
  predicate Survives(nal: seq<byte>, maxsz: nat)
    requires nal != []
  {
    if |nal| - 1 <= maxsz then |nal| == 1 || !IsFuA(nal[0]) else WithoutF(nal[0]) == nal[0]
  }

  /** Fragments carry the NAL header without its forbidden_zero_bit. */
  lemma FragmentBits(hdr: byte, start: bool, last: bool)
    ensures var fu0, fu1 := FuIndicator(hdr), FuHeader(start, last, hdr);
      && IsFuA(fu0) && (StartBit(fu1) <==> start) && (EndBit(fu1) <==> last) && UnitHeader(fu0, fu1) == WithoutF(hdr)
  {
  }

  lemma {:induction false} FragmentsReassemble(start: bool, marker: bool, hdr: byte, part: seq<byte>, buf: seq<byte>,
                                               sz: nat, rest: seq<Packet>)
    requires sz > 0
    ensures Reassemble(Fragments(start, true, marker, hdr, buf, sz) + rest, part)
         == [(if start then [WithoutF(hdr)] else part) + buf] + Reassemble(rest, [])
    decreases |buf|
  {
    hide FuHeader, FuIndicator, IsFuA, StartBit, EndBit, UnitHeader, WithoutF;
    var pkts := Fragments(start, true, marker, hdr, buf, sz) + rest;
    var last := |buf| <= sz;
    FragmentBits(hdr, start, last);
    var bytes := pkts[0].hdr + pkts[0].payload;
    var unit := (if start then [WithoutF(hdr)] else part) + bytes[2..];
    if last {
      assert pkts[1..] == rest && bytes[2..] == buf;
    } else {
      var more := Fragments(false, true, marker, hdr, buf[sz..], sz);
      assert pkts[1..] == more + rest && bytes[2..] == buf[..sz];
      FragmentsReassemble(false, marker, hdr, unit, buf[sz..], sz, rest);
      assert unit + buf[sz..] == (if start then [WithoutF(hdr)] else part) + buf;
    }
  }

  /** What one unit sent whole, but looking like a fragment, is taken for. */
  lemma TakenForFragment(marker: bool, nal: seq<byte>, maxsz: nat, rest: seq<Packet>, part: seq<byte>)
    requires maxsz > 2 && 2 <= |nal| <= maxsz + 1 && IsFuA(nal[0])
    ensures var unit := (if StartBit(nal[1]) then [UnitHeader(nal[0], nal[1])] else part) + nal[2..];
      Reassemble(Send(true, true, marker, nal[0], nal[1..], maxsz) + rest, part) ==
        if EndBit(nal[1]) then [unit] + Reassemble(rest, []) else Reassemble(rest, unit)
  {
    hide IsFuA, StartBit, EndBit, UnitHeader;
    var pkts := [Packet(marker, [nal[0]], nal[1..])] + rest;
    assert pkts[1..] == rest && [nal[0]] + nal[1..] == nal;
  }

  /** What one unit sent whole, or fragmented, comes back as otherwise. */
  lemma ComesBackAs(marker: bool, nal: seq<byte>, maxsz: nat, rest: seq<Packet>, part: seq<byte>)
    requires maxsz > 2 && nal != [] && (|nal| - 1 <= maxsz && |nal| >= 2 ==> !IsFuA(nal[0]))
    ensures Reassemble(Send(true, true, marker, nal[0], nal[1..], maxsz) + rest, part)
         == [if |nal| - 1 <= maxsz then nal else [WithoutF(nal[0])] + nal[1..]] + Reassemble(rest, [])
  {
    hide IsFuA, WithoutF;
    assert [nal[0]] + nal[1..] == nal;
    if |nal[1..]| <= maxsz {
      var pkts := [Packet(marker, [nal[0]], nal[1..])] + rest;
      assert pkts[1..] == rest;
    } else {
      FragmentsReassemble(true, marker, nal[0], part, nal[1..], maxsz - 2, rest);
    }
  }

  lemma SendReassembles(marker: bool, nal: seq<byte>, maxsz: nat, rest: seq<Packet>)
    requires maxsz > 2 && nal != [] && Survives(nal, maxsz)
    ensures Reassemble(Send(true, true, marker, nal[0], nal[1..], maxsz) + rest, []) == [nal] + Reassemble(rest, [])
  {
    hide IsFuA, WithoutF, Send;
    ComesBackAs(marker, nal, maxsz, rest, []);
    assert [nal[0]] + nal[1..] == nal;
  }

  /** A unit comes back from its own packets exactly if it survives. */
  lemma SurvivesExactly(marker: bool, nal: seq<byte>, maxsz: nat)
    requires maxsz > 2 && nal != []
    ensures Reassemble(Send(true, true, marker, nal[0], nal[1..], maxsz), []) == [nal] <==> Survives(nal, maxsz)
  {
    hide IsFuA, StartBit, EndBit, UnitHeader, WithoutF, Send;
    var pkts := Send(true, true, marker, nal[0], nal[1..], maxsz);
    assert pkts + [] == pkts;
    if Survives(nal, maxsz) {
      SendReassembles(marker, nal, maxsz, []);
    } else if |nal| <= maxsz + 1 {
      TakenForFragment(marker, nal, maxsz, [], []);
      var unit := (if StartBit(nal[1]) then [UnitHeader(nal[0], nal[1])] else []) + nal[2..];
      assert Reassemble([], unit) == [] && Reassemble([], []) == [];
      assert |unit| < |nal| && ([unit] + [])[0] != nal;
    } else {
      ComesBackAs(marker, nal, maxsz, [], []);
      var x := [WithoutF(nal[0])] + nal[1..];
      assert x[0] != nal[0] && ([x] + Reassemble([], []))[0] == x;
    }
  }

  /** No more units come back than were sent. */
  lemma {:induction false} NoneAdded(nals: seq<seq<byte>>, maxsz: nat, part: seq<byte>)
    requires maxsz > 2 && NoneEmpty(nals)
    ensures |Reassemble(Packets(nals, maxsz), part)| <= |nals|
    decreases |nals|
  {
    hide IsFuA, StartBit, EndBit, UnitHeader, WithoutF, Send;
    if nals != [] {
      var nal, rest := nals[0], Packets(nals[1..], maxsz);
      assert NoneEmpty(nals[1..]);
      NoneAdded(nals[1..], maxsz, []);
      if 2 <= |nal| <= maxsz + 1 && IsFuA(nal[0]) {
        TakenForFragment(|nals| == 1, nal, maxsz, rest, part);
        NoneAdded(nals[1..], maxsz, (if StartBit(nal[1]) then [UnitHeader(nal[0], nal[1])] else part) + nal[2..]);
      } else {
        ComesBackAs(|nals| == 1, nal, maxsz, rest, part);
      }
    }
  }

  /** A receiver gets back the NAL units of the stream, in order, if and only if every one survives. */
  lemma {:induction false} PacketsReassemble(nals: seq<seq<byte>>, maxsz: nat)
    requires maxsz > 2 && NoneEmpty(nals)
    ensures Reassemble(Packets(nals, maxsz), []) == nals <==> forall k :: 0 <= k < |nals| ==> Survives(nals[k], maxsz)
  {
    hide IsFuA, StartBit, EndBit, UnitHeader, WithoutF, Send, Survives;
    if nals != [] {
      var nal, rest := nals[0], Packets(nals[1..], maxsz);
      assert NoneEmpty(nals[1..]);
      PacketsReassemble(nals[1..], maxsz);
      FirstComesBack(nals, maxsz);
      assert nals == [nal] + nals[1..];
      if Survives(nal, maxsz) {
        SendReassembles(|nals| == 1, nal, maxsz, rest);
        assert ([nal] + Reassemble(rest, []))[1..] == Reassemble(rest, []);
        assert forall k :: 1 <= k < |nals| ==> nals[k] == nals[1..][k - 1];
      }
    }
  }

  /** A first unit that does not survive is not made up for by the others. */
  lemma FirstComesBack(nals: seq<seq<byte>>, maxsz: nat)
    requires maxsz > 2 && NoneEmpty(nals) && nals != []
    ensures Reassemble(Packets(nals, maxsz), []) == nals ==> Survives(nals[0], maxsz)
  {
    hide IsFuA, StartBit, EndBit, UnitHeader, WithoutF, Send;
    var nal, rest := nals[0], Packets(nals[1..], maxsz);
    assert NoneEmpty(nals[1..]);
    if !Survives(nal, maxsz) {
      if |nal| <= maxsz + 1 {
        TakenForFragment(|nals| == 1, nal, maxsz, rest, []);
        var unit := (if StartBit(nal[1]) then [UnitHeader(nal[0], nal[1])] else []) + nal[2..];
        assert |unit| < |nal|;
        NoneAdded(nals[1..], maxsz, unit);
      } else {
        ComesBackAs(|nals| == 1, nal, maxsz, rest, []);
        assert ([WithoutF(nal[0])] + nal[1..])[0] != nal[0];
      }
    }
  }

  /** For example, a unit of type 28 that fits a packet is taken for a fragment. */
  lemma LostUnitExample(maxsz: nat)
    requires maxsz > 2
    ensures var nals: seq<seq<byte>> := [[0x1c, 0x00]];
      NoneEmpty(nals) && Reassemble(Packets(nals, maxsz), []) != nals
  {
    var nals: seq<seq<byte>> := [[0x1c, 0x00]];
    assert IsFuA(0x1c);
    PacketsReassemble(nals, maxsz);
    assert !Survives(nals[0], maxsz);
  }

  // ---- packet sizes ------------------------------------------------------------------

  function Size(p: Packet): nat {
    |p.hdr| + |p.payload|
  }

  /** One unit: only a unit sent whole of maxsz + 1 bytes makes a packet above maxsz. */
  lemma SendSizes(marker: bool, nal: seq<byte>, maxsz: nat)
    requires maxsz > 2 && nal != []
    ensures var pkts := Send(true, true, marker, nal[0], nal[1..], maxsz);
      && |pkts| >= 1
      && (forall k :: 0 <= k < |pkts| ==> Size(pkts[k]) <= maxsz + 1)
      && ((forall k :: 0 <= k < |pkts| ==> Size(pkts[k]) <= maxsz) <==> |nal| != maxsz + 1)
  {
    var pkts := Send(true, true, marker, nal[0], nal[1..], maxsz);
    if |nal| <= maxsz + 1 {
      assert Size(pkts[0]) == |nal|;
    } else {
      FragmentMarks(true, true, marker, nal[0], nal[1..], maxsz - 2);
    }
  }

  /** No packet is longer than maxsz if and only if no unit has maxsz + 1 bytes. */
  lemma {:induction false} PacketSizes(nals: seq<seq<byte>>, maxsz: nat)
    requires maxsz > 2 && NoneEmpty(nals)
    ensures var pkts := Packets(nals, maxsz);
      && (forall k :: 0 <= k < |pkts| ==> Size(pkts[k]) <= maxsz + 1)
      && ((forall k :: 0 <= k < |pkts| ==> Size(pkts[k]) <= maxsz)
            <==> forall k :: 0 <= k < |nals| ==> |nals[k]| != maxsz + 1)
  {
    hide Send;
    if nals != [] {
      var first, rest := Send(true, true, |nals| == 1, nals[0][0], nals[0][1..], maxsz), Packets(nals[1..], maxsz);
      assert NoneEmpty(nals[1..]);
      SendSizes(|nals| == 1, nals[0], maxsz);
      PacketSizes(nals[1..], maxsz);
      hide Size;
      JoinedSizes(first, rest, maxsz + 1);
      JoinedSizes(first, rest, maxsz);
      assert (forall k :: 0 <= k < |nals| ==> |nals[k]| != maxsz + 1)
        <==> |nals[0]| != maxsz + 1 && forall k :: 0 <= k < |nals[1..]| ==> |nals[1..][k]| != maxsz + 1 by {
        assert forall k :: 1 <= k < |nals| ==> nals[k] == nals[1..][k - 1];
      }
    }
  }

  /** How many packets a unit takes. */
  function Count(length: nat, maxsz: nat): nat
    requires maxsz > 2
  {
    if length <= maxsz + 1 then 1 else (length - 1 + (maxsz - 3)) / (maxsz - 2)
  }

  /** Fragments are cut full: all but the last carry sz bytes, and the last at least one. */
  lemma {:induction false} FragmentsFull(start: bool, last: bool, marker: bool, hdr: byte, buf: seq<byte>, sz: nat)
    requires sz > 0 && buf != []
    ensures var f := Fragments(start, last, marker, hdr, buf, sz);
      && |f| == (|buf| + (sz - 1)) / sz
      && (forall k :: 0 <= k < |f| - 1 ==> |f[k].payload| == sz)
      && 1 <= |f[|f| - 1].payload| <= sz
    decreases |buf|
  {
    hide FuHeader, FuIndicator;
    if |buf| > sz {
      FragmentsFull(false, last, marker, hdr, buf[sz..], sz);
      var g := Fragments(false, last, marker, hdr, buf[sz..], sz);
      var f := Fragments(start, last, marker, hdr, buf, sz);
      assert forall k :: 1 <= k < |f| ==> f[k] == g[k - 1];
      CutOff(|buf| + (sz - 1), sz);
    } else {
      CutOff(|buf| + (sz - 1), sz);
    }
  }

  lemma CutOff(n: nat, sz: nat)
    requires 0 < sz <= n
    ensures n / sz == 1 + (n - sz) / sz
    ensures n < 2 * sz ==> n / sz == 1
  {
    DivMod(n - sz, sz);
    var q := (n - sz) / sz;
    MulDist(sz, q, 1);
    DivUnique(n, sz, q + 1, (n - sz) % sz);
    if n < 2 * sz { DivUnique(n, sz, 1, n - sz); }
  }

  /** A unit of more than maxsz + 1 bytes fills every packet but its last, which is not empty. */
  lemma SendFull(marker: bool, nal: seq<byte>, maxsz: nat)
    requires maxsz > 2 && nal != []
    ensures var pkts := Send(true, true, marker, nal[0], nal[1..], maxsz);
      && |pkts| == Count(|nal|, maxsz) >= 1
      && (|nal| > maxsz + 1 ==>
            && (forall k :: 0 <= k < |pkts| - 1 ==> Size(pkts[k]) == maxsz)
            && 3 <= Size(pkts[|pkts| - 1]) <= maxsz)
  {
    if |nal| > maxsz + 1 {
      FragmentsFull(true, true, marker, nal[0], nal[1..], maxsz - 2);
      FragmentMarks(true, true, marker, nal[0], nal[1..], maxsz - 2);
    }
  }

  /** The packets before those of unit k. */
  function PacketsBefore(nals: seq<seq<byte>>, maxsz: nat, k: nat): nat
    requires maxsz > 2 && k <= |nals|
  {
    if k == 0 then 0 else PacketsBefore(nals, maxsz, k - 1) + Count(|nals[k - 1]|, maxsz)
  }

  lemma {:induction false} BeforeRest(nals: seq<seq<byte>>, maxsz: nat, k: nat)
    requires maxsz > 2 && 1 <= k <= |nals|
    ensures PacketsBefore(nals, maxsz, k) == Count(|nals[0]|, maxsz) + PacketsBefore(nals[1..], maxsz, k - 1)
  {
    hide Count;
    if k > 1 {
      BeforeRest(nals, maxsz, k - 1);
      assert nals[1..][k - 2] == nals[k - 1];
    } else {
      assert PacketsBefore(nals, maxsz, 0) == 0;
    }
  }

  /** The packets of unit k are together, and in their place. */
  lemma {:induction false} UnitPackets(nals: seq<seq<byte>>, maxsz: nat, k: nat)
    requires maxsz > 2 && NoneEmpty(nals) && k < |nals|
    ensures var first, pkts := PacketsBefore(nals, maxsz, k), Packets(nals, maxsz);
      && first + Count(|nals[k]|, maxsz) <= |pkts|
      && pkts[first..first + Count(|nals[k]|, maxsz)]
           == Send(true, true, k == |nals| - 1, nals[k][0], nals[k][1..], maxsz)
    decreases |nals|
  {
    hide Count, Send;
    var own, rest := Send(true, true, |nals| == 1, nals[0][0], nals[0][1..], maxsz), Packets(nals[1..], maxsz);
    assert NoneEmpty(nals[1..]);
    SendFull(|nals| == 1, nals[0], maxsz);
    var first, n := PacketsBefore(nals, maxsz, k), Count(|nals[k]|, maxsz);
    assert Packets(nals, maxsz) == own + rest;
    if k > 0 {
      UnitPackets(nals[1..], maxsz, k - 1);
      BeforeRest(nals, maxsz, k);
      assert nals[1..][k - 1] == nals[k];
      assert (own + rest)[first..first + n] == rest[first - |own|..first + n - |own|];
    } else {
      assert first == 0 && (own + rest)[..n] == own;
    }
  }

  /** Every unit of a stream is sent in as few packets as its length allows: whole, or filling each
      packet but its last. */
  lemma UnitCut(nals: seq<seq<byte>>, maxsz: nat, k: nat)
    requires maxsz > 2 && NoneEmpty(nals) && k < |nals|
    ensures |Packets(nals, maxsz)| == PacketsBefore(nals, maxsz, |nals|)
    ensures var first, n, pkts := PacketsBefore(nals, maxsz, k), Count(|nals[k]|, maxsz), Packets(nals, maxsz);
      && 1 <= n && first + n <= |pkts|
      && (|nals[k]| <= maxsz + 1 ==> n == 1 && pkts[first].hdr + pkts[first].payload == nals[k])
      && (|nals[k]| > maxsz + 1 ==>
            && (forall i :: first <= i < first + n - 1 ==> Size(pkts[i]) == maxsz)
            && 3 <= Size(pkts[first + n - 1]) <= maxsz)
  {
    hide Count, Size, Send;
    var first, n, pkts := PacketsBefore(nals, maxsz, k), Count(|nals[k]|, maxsz), Packets(nals, maxsz);
    CountRest(nals, maxsz);
    UnitPackets(nals, maxsz, k);
    SendFull(k == |nals| - 1, nals[k], maxsz);
    SentWhole(k == |nals| - 1, nals[k], maxsz);
    var own := pkts[first..first + n];
    assert |own| == n && forall i :: first <= i < first + n ==> pkts[i] == own[i - first];
    assert pkts[first] == own[0] && pkts[first + n - 1] == own[n - 1];
  }

  lemma SentWhole(marker: bool, nal: seq<byte>, maxsz: nat)
    requires maxsz > 2 && nal != []
    ensures var pkts := Send(true, true, marker, nal[0], nal[1..], maxsz);
      |nal| <= maxsz + 1 ==> |pkts| == 1 && pkts[0].hdr + pkts[0].payload == nal
  {
    assert [nal[0]] + nal[1..] == nal;
  }

  lemma {:induction false} CountRest(nals: seq<seq<byte>>, maxsz: nat)
    requires maxsz > 2 && NoneEmpty(nals)
    ensures |Packets(nals, maxsz)| == PacketsBefore(nals, maxsz, |nals|)
    decreases |nals|
  {
    hide Count, Send;
    if nals != [] {
      assert NoneEmpty(nals[1..]);
      SendFull(|nals| == 1, nals[0], maxsz);
      CountRest(nals[1..], maxsz);
      BeforeRest(nals, maxsz, |nals|);
    } else {
      assert PacketsBefore(nals, maxsz, 0) == 0;
    }
  }

  lemma JoinedSizes(a: seq<Packet>, b: seq<Packet>, m: nat)
    ensures (forall k :: 0 <= k < |a + b| ==> Size((a + b)[k]) <= m)
      <==> (forall k :: 0 <= k < |a| ==> Size(a[k]) <= m) && forall k :: 0 <= k < |b| ==> Size(b[k]) <= m
  {
    hide Size;
    assert forall k :: 0 <= k < |a| ==> (a + b)[k] == a[k];
    assert forall k :: 0 <= k < |b| ==> (a + b)[|a| + k] == b[k];
  }

  /** For example, a unit of four bytes for packets of three. */
  lemma LongPacketExample()
    ensures var pkts := Packets([[1, 2, 3, 4]], 3); |pkts| == 1 && Size(pkts[0]) == 4
  {
    assert Packets([], 3) == [];
  }

  /** The marker is on the last packet of the stream and nowhere else. */
  lemma {:induction false} MarkerOnLast(nals: seq<seq<byte>>, maxsz: nat, k: nat)
    requires maxsz > 2 && NoneEmpty(nals) && k < |Packets(nals, maxsz)|
    ensures Packets(nals, maxsz)[k].marker <==> k == |Packets(nals, maxsz)| - 1
  {
    var one := Send(true, true, |nals| == 1, nals[0][0], nals[0][1..], maxsz);
    assert NoneEmpty(nals[1..]);
    FragmentMarks(true, true, |nals| == 1, nals[0][0], nals[0][1..], maxsz - 2);
    if k >= |one| {
      MarkerOnLast(nals[1..], maxsz, k - |one|);
    } else if |nals| > 1 {
      var two := Send(true, true, |nals| == 2, nals[1][0], nals[1][1..], maxsz);
      FragmentMarks(true, true, |nals| == 2, nals[1][0], nals[1][1..], maxsz - 2);
      assert |Packets(nals[1..], maxsz)| >= |two| > 0;
    }
  }

  /** Only the first fragment has S, only the last E and the marker, and none is larger than sz. */
  lemma {:induction false} FragmentMarks(start: bool, last: bool, marker: bool, hdr: byte, buf: seq<byte>, sz: nat)
    requires sz > 0
    ensures var f := Fragments(start, last, marker, hdr, buf, sz);
      && |f| >= 1
      && forall k :: 0 <= k < |f| ==>
           && (f[k].marker <==> marker && last && k == |f| - 1)
           && |f[k].payload| <= sz
           && f[k].hdr == [FuIndicator(hdr), FuHeader(start && k == 0, last && k == |f| - 1, hdr)]
    decreases |buf|
  {
    hide FuHeader, FuIndicator;
    if |buf| > sz {
      FragmentMarks(false, last, marker, hdr, buf[sz..], sz);
      var g := Fragments(false, last, marker, hdr, buf[sz..], sz);
      var head := Packet(false, [FuIndicator(hdr), FuHeader(start, false, hdr)], buf[..sz]);
      var f := [head] + g;
      assert f == Fragments(start, last, marker, hdr, buf, sz);
      hide Fragments;
      forall k | 0 <= k < |f|
        ensures f[k].marker <==> marker && last && k == |f| - 1
        ensures |f[k].payload| <= sz
        ensures f[k].hdr == [FuIndicator(hdr), FuHeader(start && k == 0, last && k == |f| - 1, hdr)]
      {
        if k > 0 { assert f[k] == g[k - 1]; }
      }
    }
  }
}

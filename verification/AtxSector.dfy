/** The status register of an ATX disk sector: kept inverted, and changed only by OR-ing bits in. */
module AtxSector {

  type Byte = bv8

  /** The status a controller sees for the inverted register m: bits 1 to 5 are its own, the others always read as 1. */
  function StatusOf(m: Byte): Byte {
    (!m & 0x3E) | 0xC1
  }

  function RegisterAfter(m: Byte, status: Byte): Byte {
    m | (!status & 0x3E)
  }

  /** Data is delivered doubled in this state of the status. */
  predicate Doubles(status: Byte) {
    status & 0x06 == 0 && status & 0x08 != 0
  }

  class AtxSectorInfo {
    const sectorNumber: Byte
    var sectorStatus: Byte
    const sectorPosition: bv16
    var sectorData: seq<Byte>
    var sectorWeakOffset: bv16

    constructor (sectorNumber: Byte, sectorStatus: Byte, sectorPosition: bv16)
      ensures this.sectorNumber == sectorNumber && this.sectorPosition == sectorPosition
      ensures this.sectorStatus == sectorStatus && sectorData == [] && sectorWeakOffset == 0xFFFF
    {
      this.sectorNumber := sectorNumber;
      this.sectorStatus := sectorStatus;
      this.sectorPosition := sectorPosition;
      sectorData := [];
      sectorWeakOffset := 0xFFFF;
    }

    function Wd1771Status(): Byte
      reads this
    {
      StatusOf(sectorStatus)
    }

    function Size(): nat
      reads this
    {
      if Doubles(Wd1771Status()) then |sectorData| * 2 else |sectorData|
    }

    /** The new status is the old one AND the requested one: requesting a bit never sets it. */
    method SetWd1771Status(status: Byte)
      modifies this`sectorStatus
      ensures sectorStatus == RegisterAfter(old(sectorStatus), status)
      ensures Wd1771Status() == old(Wd1771Status()) & (status | 0xC1)
    {
      StatusAfter(sectorStatus, status);
      sectorStatus := sectorStatus | (!status & 0x3E);
    }

    method SetSectorData(data: seq<Byte>)
      modifies this`sectorData
      ensures sectorData == data
      ensures Size() == if sectorStatus & 0x06 == 0x06 && sectorStatus & 0x08 == 0 then 2 * |data| else |data|
    {
      DoubledRegister(sectorStatus);
      sectorData := data;
    }
  }

  lemma DoubledRegister(m: Byte)
    ensures Doubles(StatusOf(m)) <==> m & 0x06 == 0x06 && m & 0x08 == 0
  {
  }

  /** On every register the bits of 0xC1 read as 1, and each other bit is set exactly if it is clear in the register. */
  lemma StatusBits(m: Byte, bit: Byte)
    requires bit in {0x01, 0x02, 0x04, 0x08, 0x10, 0x20, 0x40, 0x80}
    ensures StatusOf(m) & bit != 0 <==> bit in {0x01, 0x40, 0x80} || m & bit == 0
  {
  }

  /** A request sets those bits of the register that it has clear, of bits 1 to 5 only. */
  lemma RegisterBits(m: Byte, status: Byte, bit: Byte)
    requires bit in {0x01, 0x02, 0x04, 0x08, 0x10, 0x20, 0x40, 0x80}
    ensures RegisterAfter(m, status) & bit != 0
            <==> m & bit != 0 || (bit !in {0x01, 0x40, 0x80} && status & bit == 0)
  {
  }

  /** A sector is doubled exactly if bits 1 and 2 of its register are set and bit 3 is clear. */
  lemma DoublesIff(m: Byte)
    ensures Doubles(StatusOf(m)) <==> m & 0x02 != 0 && m & 0x04 != 0 && m & 0x08 == 0
  {
  }

  /** For instance, a register with bit 0x40 reads as all ones; the empty register too, and one with 0x06 as 0xF9. */
  lemma StatusExamples()
    ensures StatusOf(0x40) == 0xFF && StatusOf(0x00) == 0xFF && StatusOf(0x06) == 0xF9 && StatusOf(0xFF) == 0xC1
    ensures Doubles(StatusOf(0x06)) && !Doubles(StatusOf(0x0E)) && !Doubles(StatusOf(0x02)) && !Doubles(StatusOf(0x00))
  {
  }

  lemma StatusAfter(m: Byte, status: Byte)
    ensures StatusOf(RegisterAfter(m, status)) == StatusOf(m) & (status | 0xC1)
  {
  }

  /** The status reads back as requested if and only if the request clears bits only. */
  lemma ReadsBackIff(m: Byte, status: Byte)
    ensures StatusOf(RegisterAfter(m, status)) == status | 0xC1
            <==> (status | 0xC1) & !StatusOf(m) == 0
  {
    StatusAfter(m, status);
    AbsorbIff(StatusOf(m), status | 0xC1);
  }

  lemma AbsorbIff(x: Byte, y: Byte)
    ensures x & y == y <==> y & !x == 0
  {
  }

  /** For instance, a request to raise bit 0x10 of a sector that has it clear is lost. */
  lemma LostRequestExample()
    ensures StatusOf(0x10) == 0xEF && StatusOf(RegisterAfter(0x10, 0xFF)) == 0xEF
  {
  }

  // ---------- Runs ----------

  ghost function RegisterRun(m: Byte, requests: seq<Byte>): Byte {
    if requests == [] then m else RegisterAfter(RegisterRun(m, requests[..|requests| - 1]), requests[|requests| - 1])
  }

  /** The AND of everything requested. */
  ghost function Meet(requests: seq<Byte>): Byte {
    if requests == [] then 0xFF else Meet(requests[..|requests| - 1]) & (requests[|requests| - 1] | 0xC1)
  }

  lemma MeetStep(s: Byte, meet: Byte, request: Byte)
    ensures (s & meet) & (request | 0xC1) == s & (meet & (request | 0xC1))
  {
  }

  lemma MeetNothing(s: Byte)
    ensures s & 0xFF == s
  {
  }

  /** After any run of requests, the status is the initial one AND all requests. */
  lemma {:induction false} StatusAfterRun(m: Byte, requests: seq<Byte>)
    ensures StatusOf(RegisterRun(m, requests)) == StatusOf(m) & Meet(requests)
  {
    if requests == [] {
      MeetNothing(StatusOf(m));
    } else {
      var init, last := requests[..|requests| - 1], requests[|requests| - 1];
      StatusAfterRun(m, init);
      StatusAfter(RegisterRun(m, init), last);
      MeetStep(StatusOf(m), Meet(init), last);
    }
  }

  lemma BelowBothIff(z: Byte, x: Byte, y: Byte)
    ensures z & (x & y) == z <==> z & x == z && z & y == z
  {
  }

  lemma AndAntisymmetric(x: Byte, y: Byte)
    requires x & y == x && y & x == y
    ensures x == y
  {
  }

  /** z has no bit that one of the requests lacks. */
  ghost predicate Within(z: Byte, requests: seq<Byte>) {
    forall i :: 0 <= i < |requests| ==> z & (requests[i] | 0xC1) == z
  }

  lemma WithinStep(z: Byte, requests: seq<Byte>)
    requires requests != []
    ensures Within(z, requests)
            <==> Within(z, requests[..|requests| - 1]) && z & (requests[|requests| - 1] | 0xC1) == z
  {
  }

  /** Meet is the greatest lower bound of the requests. */
  lemma {:induction false} MeetIsGreatest(z: Byte, requests: seq<Byte>)
    ensures z & Meet(requests) == z <==> Within(z, requests)
  {
    if requests == [] {
      MeetNothing(z);
    } else {
      var init, last := requests[..|requests| - 1], requests[|requests| - 1];
      MeetIsGreatest(z, init);
      BelowBothIff(z, Meet(init), last | 0xC1);
      WithinStep(z, requests);
    }
  }

  lemma WithinSet(z: Byte, a: seq<Byte>, b: seq<Byte>)
    requires forall r :: r in b ==> r in a
    requires Within(z, a)
    ensures Within(z, b)
  {
    forall i | 0 <= i < |b| ensures z & (b[i] | 0xC1) == z {
      assert b[i] in a;
    }
  }

  /** Neither the order nor the number of equal requests matters. */
  lemma MeetDependsOnSet(a: seq<Byte>, b: seq<Byte>)
    requires forall r :: r in a <==> r in b
    ensures Meet(a) == Meet(b)
  {
    AndSelf(Meet(a));
    AndSelf(Meet(b));
    MeetIsGreatest(Meet(a), a);
    MeetIsGreatest(Meet(b), b);
    WithinSet(Meet(a), a, b);
    WithinSet(Meet(b), b, a);
    MeetIsGreatest(Meet(a), b);
    MeetIsGreatest(Meet(b), a);
    AndAntisymmetric(Meet(a), Meet(b));
  }

  lemma AndSelf(x: Byte)
    ensures x & x == x
  {
  }

  /** Two runs that request the same values, in any order and any number of times, end in the same status. */
  lemma OrderIrrelevant(m: Byte, a: seq<Byte>, b: seq<Byte>)
    requires forall r :: r in a <==> r in b
    ensures StatusOf(RegisterRun(m, a)) == StatusOf(RegisterRun(m, b))
  {
    StatusAfterRun(m, a);
    StatusAfterRun(m, b);
    MeetDependsOnSet(a, b);
  }

  lemma {:induction false} RunConcat(m: Byte, a: seq<Byte>, b: seq<Byte>)
    ensures RegisterRun(m, a + b) == RegisterRun(RegisterRun(m, a), b)
  {
    if b == [] {
      assert a + b == a;
    } else {
      RunConcat(m, a, b[..|b| - 1]);
      assert (a + b)[..|a + b| - 1] == a + b[..|b| - 1];
    }
  }

  lemma DoublingOnce(x: Byte, y: Byte, z: Byte)
    requires Doubles(x) && !Doubles(x & y)
    ensures !Doubles((x & y) & z)
  {
  }

  lemma NeverRegains(x: Byte, y: Byte, bit: Byte)
    requires x & bit == 0
    ensures (x & y) & bit == 0
  {
  }

  /** A status bit once cleared stays cleared whatever is requested afterwards. */
  lemma ClearedStaysCleared(m: Byte, requests: seq<Byte>, bit: Byte)
    requires StatusOf(m) & bit == 0
    ensures StatusOf(RegisterRun(m, requests)) & bit == 0
  {
    StatusAfterRun(m, requests);
    NeverRegains(StatusOf(m), Meet(requests), bit);
  }

  /** Doubling, once on and then off again, never comes back: it is on during at most one stretch of a run. */
  lemma DoublesOneStretch(m: Byte, a: seq<Byte>, b: seq<Byte>, c: seq<Byte>)
    requires Doubles(StatusOf(RegisterRun(m, a))) && !Doubles(StatusOf(RegisterRun(m, a + b)))
    ensures !Doubles(StatusOf(RegisterRun(m, a + b + c)))
  {
    RunConcat(m, a, b);
    RunConcat(m, a + b, c);
    StatusAfterRun(RegisterRun(m, a), b);
    StatusAfterRun(RegisterRun(m, a + b), c);
    DoublingOnce(StatusOf(RegisterRun(m, a)), Meet(b), Meet(c));
  }
}

/**
 The subnet allocator (internal/cni/subnet.go). Every (realm, space) owns at
 most one state file holding the CIDR text of its chunk of the parent block.
 The files are the only state: each call rescans them.
 */
module Subnets {
  import opened Wrappers
  import opened Text
  import opened Ipv4
  import opened Arith

  datatype Key = Key(realm: string, space: string)

  /** A space directory: no state file, a healthy one, or one that is not JSON or names a blank subnet. */
  datatype Record = Absent | Stored(cidr: string) | Corrupt

  type Records = map<Key, Record>

  /** What net.ParseCIDR finds in the parent text. */
  datatype Parent = Malformed | NotIPv4 | Block(ip: Address, bits: nat)

  /** The fields NewSubnetAllocator derives. */
  datatype Plan = Plan(base: Address, parentBits: nat, prefixLen: nat, span: Address, size: nat)

  ghost predicate ValidPlan(plan: Plan) {
    && plan.parentBits < plan.prefixLen <= 32
    && IsMultiple(plan.base, Pow2(32 - plan.parentBits))
    && plan.span == Pow2(32 - plan.prefixLen)
    && plan.size == ShiftOne(plan.prefixLen - plan.parentBits)
  }

  ghost predicate IsMultiple(x: nat, b: nat) {
    exists q: nat :: IsProduct(x, q, b)
  }

  ghost predicate IsProduct(x: nat, q: nat, b: nat) { x == q * b }

  /** The network address net.ParseCIDR returns: the host bits cleared. */
  function Mask(ip: Address, bits: nat): (r: Address)
    requires bits <= 32
    ensures IsMultiple(r, Pow2(32 - bits))
    ensures r <= ip < r + Pow2(32 - bits)
  {
    var b := Pow2(32 - bits);
    RoundDown(ip, b);
    assert IsProduct(ip / b * b, ip / b, b);
    ip / b * b
  }

  /** NewSubnetAllocator: validation and the two 32-bit shifts. */
  function NewPlan(parent: Parent, prefixLen: int): (r: Option<Plan>)
    ensures r.Some? <==> parent.Block? && parent.bits < prefixLen <= 32
    ensures r.Some? ==> ValidPlan(r.value) && r.value.base <= parent.ip < r.value.base + ParentSpan(r.value)
  {
    if !parent.Block? || prefixLen <= parent.bits || prefixLen > 32 then
      None
    else
      ShiftOneExact(32 - prefixLen);
      Some(Plan(Mask(parent.ip, parent.bits), parent.bits, prefixLen,
                ShiftOne(32 - prefixLen), ShiftOne(prefixLen - parent.bits)))
  }

  ghost function ParentSpan(plan: Plan): nat
    requires plan.parentBits <= 32
  {
    Pow2(32 - plan.parentBits)
  }

  /** The allocator knows every chunk of its parent exactly when the chunk count fits 32 bits:
      a /0 parent carved into /32 chunks shifts the count out of the word and offers none. */
  lemma SizeIsExact(plan: Plan)
    requires ValidPlan(plan)
    ensures plan.size == Pow2(plan.prefixLen - plan.parentBits) <==> plan.prefixLen - plan.parentBits <= 31
    ensures plan.prefixLen - plan.parentBits == 32 ==> plan.size == 0
  {
    ShiftOneExact(plan.prefixLen - plan.parentBits);
  }

  /** An allocator over the whole address space in single addresses is accepted and has nothing to hand out. */
  lemma WholeSpaceHasNoChunk()
    ensures var plan := NewPlan(Block(0, 0), 32);
            plan.Some? && plan.value.size == 0 && FirstFree(Chunks(plan.value), {}, 0).None?
  {
    ShiftOneExact(32);
  }

  // ----- Chunks -----

  /** firstFreeLocked's candidate: uint32 multiplication and addition, so modulo 2^32. */
  function Chunk(plan: Plan, i: nat): Address {
    (plan.base + i * plan.span % SPACE) % SPACE
  }

  function ChunkText(plan: Plan, i: nat): string {
    Cidr(Chunk(plan, i), plan.prefixLen)
  }

  /** The candidate texts in the order firstFreeLocked tries them. */
  function Chunks(plan: Plan): seq<string> {
    seq(plan.size, (i: nat) => ChunkText(plan, i))
  }

  lemma ParentFits(plan: Plan)
    requires ValidPlan(plan)
    ensures plan.base + ParentSpan(plan) <= SPACE
  {
    var b := ParentSpan(plan);
    Pow2Of32();
    Pow2Add(plan.parentBits, 32 - plan.parentBits);
    var q: nat :| IsProduct(plan.base, q, b);
    RoomForOne(plan.base, q, b, Pow2(plan.parentBits));
  }

  /** The chunks fill the parent exactly, when there are any. */
  lemma ChunksFill(plan: Plan)
    requires ValidPlan(plan) && plan.size > 0
    ensures ParentSpan(plan) == plan.size * plan.span
  {
    var n := plan.prefixLen - plan.parentBits;
    ShiftOneExact(n);
    Pow2Add(n, 32 - plan.prefixLen);
  }

  /** No candidate wraps: chunk i is the i-th span-sized slice of the parent. */
  lemma ChunkExact(plan: Plan, i: nat)
    requires ValidPlan(plan) && i < plan.size
    ensures Chunk(plan, i) == plan.base + i * plan.span
    ensures Chunk(plan, i) + plan.span <= plan.base + ParentSpan(plan) <= SPACE
  {
    ParentFits(plan);
    ChunksFill(plan);
    SliceInside(plan.base, i, plan.size, plan.span, ParentSpan(plan), SPACE);
  }

  lemma ChunkBounds(plan: Plan, i: nat)
    requires ValidPlan(plan) && i < plan.size
    ensures plan.base <= Chunk(plan, i) && Chunk(plan, i) + Pow2(32 - plan.prefixLen) <= plan.base + ParentSpan(plan)
  {
    ChunkExact(plan, i);
  }

  // ----- Blocks of addresses -----

  /** Address a lies in the block a CIDR text names. */
  ghost predicate InBlock(cidr: string, a: Address) {
    exists v: Address, p: nat :: IsBlockOf(cidr, a, v, p)
  }

  ghost predicate IsBlockOf(cidr: string, a: Address, v: Address, p: nat) {
    p <= 32 && v <= a < v + Pow2(32 - p) && cidr == Cidr(v, p)
  }

  /** The g-th /p block of the address space. */
  ghost predicate IsGridBlock(p: nat, g: nat, cidr: string) {
    && p <= 32
    && g * Pow2(32 - p) < SPACE
    && cidr == Cidr(g * Pow2(32 - p), p)
  }

  ghost predicate OnGrid(p: nat, cidr: string) {
    exists g: nat :: IsGridBlock(p, g, cidr)
  }

  lemma BlockAddresses(v: Address, p: nat, a: Address)
    requires p <= 32
    ensures InBlock(Cidr(v, p), a) <==> v <= a < v + Pow2(32 - p)
  {
    if InBlock(Cidr(v, p), a) {
      var v': Address, p': nat :| IsBlockOf(Cidr(v, p), a, v', p');
      CidrInjective(v, p, v', p');
    }
    if v <= a < v + Pow2(32 - p) {
      assert IsBlockOf(Cidr(v, p), a, v, p);
    }
  }

  lemma GridBlockAddresses(p: nat, g: nat, cidr: string, a: Address)
    requires IsGridBlock(p, g, cidr)
    ensures InBlock(cidr, a) <==> g * Pow2(32 - p) <= a < (g + 1) * Pow2(32 - p)
  {
    MulAdd(g, 1, Pow2(32 - p));
    BlockAddresses(g * Pow2(32 - p), p, a);
  }

  /** Blocks of one prefix length share an address only when their texts are equal. */
  lemma GridBlocksDisjoint(p: nat, c: string, c': string)
    requires OnGrid(p, c) && OnGrid(p, c')
    ensures c == c' <==> exists a: Address :: InBlock(c, a) && InBlock(c', a)
  {
    var g: nat :| IsGridBlock(p, g, c);
    var g': nat :| IsGridBlock(p, g', c');
    if c == c' {
      SharedAddress(p, g, c);
    }
    if a: Address :| InBlock(c, a) && InBlock(c', a) {
      SameGridBlock(p, g, c, g', c', a);
    }
  }

  lemma SharedAddress(p: nat, g: nat, c: string)
    requires IsGridBlock(p, g, c)
    ensures exists a: Address :: InBlock(c, a)
  {
    var a: Address := g * Pow2(32 - p);
    MulAdd(g, 1, Pow2(32 - p));
    GridBlockAddresses(p, g, c, a);
  }

  lemma SameGridBlock(p: nat, g: nat, c: string, g': nat, c': string, a: Address)
    requires IsGridBlock(p, g, c) && IsGridBlock(p, g', c')
    requires InBlock(c, a) && InBlock(c', a)
    ensures c == c'
  {
    GridBlockAddresses(p, g, c, a);
    GridBlockAddresses(p, g', c', a);
    OneSlot(g, g', Pow2(32 - p), a);
  }

  lemma GridIndex(plan: Plan, i: nat) returns (g: nat)
    requires ValidPlan(plan) && i < plan.size
    ensures Chunk(plan, i) == g * plan.span
  {
    ChunkExact(plan, i);
    ChunksFill(plan);
    var q: nat :| IsProduct(plan.base, q, ParentSpan(plan));
    SliceSlot(plan.base, q, plan.size, plan.span, ParentSpan(plan), i);
    g := q * plan.size + i;
  }

  lemma ChunkOnGrid(plan: Plan, i: nat)
    requires ValidPlan(plan) && i < plan.size
    ensures OnGrid(plan.prefixLen, ChunkText(plan, i))
  {
    var g := GridIndex(plan, i);
    assert IsGridBlock(plan.prefixLen, g, ChunkText(plan, i));
  }

  lemma ChunkTextInjective(plan: Plan, i: nat, j: nat)
    requires ValidPlan(plan) && i < plan.size && j < plan.size
    ensures ChunkText(plan, i) == ChunkText(plan, j) <==> i == j
  {
    ChunkExact(plan, i);
    ChunkExact(plan, j);
    CidrInjective(Chunk(plan, i), plan.prefixLen, Chunk(plan, j), plan.prefixLen);
    if Chunk(plan, i) == Chunk(plan, j) {
      MulInjective(i, j, plan.span);
    }
  }

  /** Candidate i names, in dotted decimal, the i-th slice of the parent. */
  lemma ChunkReads(plan: Plan, i: nat)
    requires ValidPlan(plan) && i < plan.size
    ensures Names(Chunks(plan)[i], plan.base + i * Pow2(32 - plan.prefixLen), plan.prefixLen)
  {
    ChunkExact(plan, i);
    CidrReads(Chunk(plan, i), plan.prefixLen, ChunkText(plan, i));
  }

  ghost predicate AllDifferent(texts: seq<string>) {
    forall i, j | 0 <= i < j < |texts| :: texts[i] != texts[j]
  }

  ghost predicate AllOnGrid(p: nat, texts: seq<string>) {
    forall c <- texts :: OnGrid(p, c)
  }

  /** The candidate texts of an allocator: aligned blocks of its prefix length, no two alike. */
  lemma ChunksAreCandidates(plan: Plan)
    requires ValidPlan(plan)
    ensures |Chunks(plan)| == plan.size
    ensures AllDifferent(Chunks(plan)) && AllOnGrid(plan.prefixLen, Chunks(plan))
  {
    var texts := Chunks(plan);
    forall i, j | 0 <= i < j < |texts| ensures texts[i] != texts[j] {
      ChunkTextInjective(plan, i, j);
    }
    forall c | c in texts ensures OnGrid(plan.prefixLen, c) {
      var i :| 0 <= i < plan.size && texts[i] == c;
      ChunkOnGrid(plan, i);
    }
  }

  // ----- The state files -----

  /** The spaces whose file readState accepts. */
  function HealthyKeys(recs: Records): set<Key> {
    set k | k in recs && recs[k].Stored?
  }

  /** The subnets a scan sees when the files of some spaces cannot be read: any read
      error is treated like a corrupt file and skipped. */
  function Used(recs: Records, unreadable: set<Key>): set<string> {
    set k | k in HealthyKeys(recs) && k !in unreadable :: recs[k].cidr
  }

  datatype Error = NameRequired | ReadFailed | StateCorrupt | ScanFailed | Exhausted | WriteFailed

  datatype Result = Ok(cidr: string) | Err(error: Error)

  datatype Reading = Nothing | Found(cidr: string) | Unusable(error: Error)

  /** readState */
  function ReadState(recs: Records, key: Key, unreadable: set<Key>): Reading {
    if key !in recs || recs[key].Absent? then Nothing
    else if key in unreadable then Unusable(ReadFailed)
    else if recs[key].Corrupt? then Unusable(StateCorrupt)
    else Found(recs[key].cidr)
  }

  /** What a failed write leaves in the file. */
  datatype Leftover = Untouched | Partial | Whole

  datatype WriteOutcome = Written | Failed(left: Leftover)

  /** The environment's part of one Allocate call. */
  datatype Faults = Faults(scanFails: bool, unreadable: set<Key>, write: WriteOutcome)

  const NoFaults := Faults(false, {}, Written)

  /** The lowest index from i on whose text is not in use. */
  function FirstFree(texts: seq<string>, used: set<string>, i: nat): (r: Option<nat>)
    ensures r.None? <==> forall j | i <= j < |texts| :: texts[j] in used
    ensures r.Some? ==> i <= r.value < |texts| && texts[r.value] !in used
    ensures r.Some? ==> forall j | i <= j < r.value :: texts[j] in used
    decreases |texts| - i
  {
    if i >= |texts| then None
    else if texts[i] in used then FirstFree(texts, used, i + 1)
    else Some(i)
  }

  function BlankName(key: Key): bool {
    TrimSpace(key.realm) == "" || TrimSpace(key.space) == ""
  }

  /** Allocate as a function of the candidate texts and the state files. */
  function AllocateSpec(texts: seq<string>, recs: Records, key: Key, f: Faults): (Records, Result) {
    if BlankName(key) then (recs, Err(NameRequired))
    else match ReadState(recs, key, f.unreadable)
      case Unusable(e) => (recs, Err(e))
      case Found(cidr) => (recs, Ok(cidr))
      case Nothing =>
        if f.scanFails then (recs, Err(ScanFailed))
        else match FirstFree(texts, Used(recs, f.unreadable), 0)
          case None => (recs, Err(Exhausted))
          case Some(i) => WriteSpec(recs, key, texts[i], f.write)
  }

  /** writeSubnetState */
  function WriteSpec(recs: Records, key: Key, cidr: string, w: WriteOutcome): (Records, Result) {
    match w
    case Written => (recs[key := Stored(cidr)], Ok(cidr))
    case Failed(Untouched) => (recs, Err(WriteFailed))
    case Failed(Partial) => (recs[key := Corrupt], Err(WriteFailed))
    case Failed(Whole) => (recs[key := Stored(cidr)], Err(WriteFailed))
  }

  /** Release as a function of the state files. */
  function ReleaseSpec(recs: Records, key: Key, removeFails: bool): (Records, bool) {
    if BlankName(key) then (recs, true)
    else if removeFails then (recs, false)
    else (if key in recs then recs[key := Absent] else recs, true)
  }

  // ----- The allocator object -----

  /** The metadata tree, shared by every allocator built over it. */
  class Disk {
    var records: Records

    constructor ()
      ensures records == map[]
    {
      records := map[];
    }
  }

  class SubnetAllocator {
    const plan: Plan
    const disk: Disk

    constructor (disk: Disk, plan: Plan)
      requires ValidPlan(plan)
      ensures this.plan == plan && this.disk == disk
    {
      this.plan := plan;
      this.disk := disk;
    }

    method Allocate(realm: string, space: string, f: Faults) returns (r: Result)
      modifies disk
      ensures (disk.records, r) == AllocateSpec(Chunks(plan), old(disk.records), Key(realm, space), f)
    {
      var key := Key(realm, space);
      if TrimSpace(realm) == "" || TrimSpace(space) == "" {
        return Err(NameRequired);
      }
      var reading := ReadState(disk.records, key, f.unreadable);
      if reading.Unusable? {
        return Err(reading.error);
      } else if reading.Found? {
        return Ok(reading.cidr);
      }
      if f.scanFails {
        return Err(ScanFailed);
      }
      var used := ScanUsed(f.unreadable);
      var free := FirstFreeChunk(plan, used);
      if free.None? {
        return Err(Exhausted);
      }
      if f.write.Written? || f.write.left.Whole? {
        disk.records := disk.records[key := Stored(free.value)];
      } else if f.write.left.Partial? {
        disk.records := disk.records[key := Corrupt];
      }
      r := if f.write.Written? then Ok(free.value) else Err(WriteFailed);
    }

    method Release(realm: string, space: string, removeFails: bool) returns (ok: bool)
      modifies disk
      ensures (disk.records, ok) == ReleaseSpec(old(disk.records), Key(realm, space), removeFails)
    {
      if TrimSpace(realm) == "" || TrimSpace(space) == "" {
        return true;
      }
      if removeFails {
        return false;
      }
      var key := Key(realm, space);
      if key in disk.records {
        disk.records := disk.records[key := Absent];
      }
      ok := true;
    }

    /** usedSubnetsLocked: the nested walk over realm and space directories. */
    method ScanUsed(unreadable: set<Key>) returns (used: set<string>)
      ensures used == Used(disk.records, unreadable)
    {
      used := {};
      var recs := disk.records;
      var realms := set k | k in recs :: k.realm;
      ghost var done: set<Key> := {};
      while realms != {}
        invariant done == set k | k in recs && k.realm !in realms
        invariant used == set k | k in HealthyKeys(recs) && k !in unreadable && k in done :: recs[k].cidr
      {
        var realm :| realm in realms;
        var spaces := set k | k in recs && k.realm == realm :: k.space;
        while spaces != {}
          invariant forall sp | sp in spaces :: Key(realm, sp) in recs
          invariant done == set k | k in recs && (k.realm !in realms || (k.realm == realm && k.space !in spaces))
          invariant used == set k | k in HealthyKeys(recs) && k !in unreadable && k in done :: recs[k].cidr
        {
          var space :| space in spaces;
          var key := Key(realm, space);
          var reading := ReadState(recs, key, unreadable);
          if reading.Found? {
            used := used + {reading.cidr};
          }
          spaces := spaces - {space};
          done := done + {key};
        }
        realms := realms - {realm};
      }
    }
  }

  /** firstFreeLocked: the lowest free chunk, and exhaustion exactly when none is free. */
  method FirstFreeChunk(plan: Plan, used: set<string>) returns (r: Option<string>)
    ensures r.None? <==> forall c <- Chunks(plan) :: c in used
    ensures r.Some? ==> exists i | 0 <= i < plan.size ::
      && r.value == Chunks(plan)[i]
      && r.value !in used
      && forall c <- Chunks(plan)[..i] :: c in used
    ensures r == match FirstFree(Chunks(plan), used, 0) case None => None case Some(i) => Some(Chunks(plan)[i])
  {
    ghost var texts := Chunks(plan);
    var i := 0;
    while i < plan.size
      invariant i <= plan.size
      invariant forall j | 0 <= j < i :: texts[j] in used
    {
      var cidr := ChunkText(plan, i);
      assert cidr == texts[i];
      if cidr !in used {
        return Some(cidr);
      }
      i := i + 1;
    }
    r := None;
  }
}

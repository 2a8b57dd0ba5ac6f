/**
 What the subnet allocator guarantees over whole runs: assigned address ranges
 stay inside the parent and never overlap, capacity is conserved, and a restart
 changes nothing (internal/cni/subnet.go:229-330). The candidate texts of an
 allocator are a parameter here; ChunksAreCandidates supplies them.
 */
module SubnetProofs {
  import opened Wrappers
  import opened Text
  import opened Ipv4
  import opened Counting
  import opened Subnets

  // ----- The invariant, on texts and on addresses -----

  /** Every healthy file names an aligned /p block, whatever parent it was carved from. */
  ghost predicate Aligned(p: nat, recs: Records) {
    forall k <- HealthyKeys(recs) :: OnGrid(p, recs[k].cidr)
  }

  /** No two healthy files hold the same text. */
  ghost predicate Distinct(recs: Records) {
    forall k, k' | k in HealthyKeys(recs) && k' in HealthyKeys(recs) && recs[k].cidr == recs[k'].cidr :: k == k'
  }

  /** Every healthy file holds one of the candidate texts. */
  ghost predicate FromCandidates(texts: seq<string>, recs: Records) {
    forall k <- HealthyKeys(recs) :: recs[k].cidr in texts
  }

  /** No address is assigned to two spaces. */
  ghost predicate Disjoint(recs: Records) {
    forall k, k', a: Address |
      && k in HealthyKeys(recs) && k' in HealthyKeys(recs)
      && InBlock(recs[k].cidr, a) && InBlock(recs[k'].cidr, a) :: k == k'
  }

  /** Every address of a block lies in the parent block of one of some allocators. */
  ghost predicate InsideSome(plans: set<Plan>, c: string)
    requires AllValid(plans)
  {
    exists plan <- plans :: InsideParent(plan, c)
  }

  ghost predicate InsideParent(plan: Plan, c: string)
    requires ValidPlan(plan)
  {
    forall a: Address | InBlock(c, a) :: plan.base <= a < plan.base + ParentSpan(plan)
  }

  ghost predicate AllValid(plans: set<Plan>) { forall plan <- plans :: ValidPlan(plan) }

  ghost predicate Contained(plans: set<Plan>, recs: Records)
    requires AllValid(plans)
  {
    forall k <- HealthyKeys(recs) :: InsideSome(plans, recs[k].cidr)
  }

  /** A candidate of one of some allocators. */
  ghost predicate OfSome(plans: set<Plan>, c: string)
    requires AllValid(plans)
  {
    exists plan <- plans :: c in Chunks(plan)
  }

  ghost predicate FromPlans(plans: set<Plan>, recs: Records)
    requires AllValid(plans)
  {
    forall k <- HealthyKeys(recs) :: OfSome(plans, recs[k].cidr)
  }

  /** Comparing texts is comparing address ranges, as long as the prefix length never changes. */
  lemma DistinctIsDisjoint(p: nat, recs: Records)
    requires Aligned(p, recs)
    ensures Distinct(recs) <==> Disjoint(recs)
  {
    forall k, k' | k in HealthyKeys(recs) && k' in HealthyKeys(recs)
      ensures recs[k].cidr == recs[k'].cidr <==>
              exists a: Address :: InBlock(recs[k].cidr, a) && InBlock(recs[k'].cidr, a)
    {
      GridBlocksDisjoint(p, recs[k].cidr, recs[k'].cidr);
    }
  }

  lemma ChunkInsideParent(plan: Plan, i: nat, a: Address)
    requires ValidPlan(plan) && i < plan.size
    ensures InBlock(ChunkText(plan, i), a) ==> plan.base <= a < plan.base + ParentSpan(plan)
  {
    ChunkBounds(plan, i);
    if InBlock(ChunkText(plan, i), a) {
      BlockInside(Chunk(plan, i), plan.prefixLen, a, plan.base, plan.base + ParentSpan(plan));
    }
  }

  lemma BlockInside(v: Address, p: nat, a: Address, lo: nat, hi: nat)
    requires p <= 32 && InBlock(Cidr(v, p), a) && lo <= v && v + Pow2(32 - p) <= hi
    ensures lo <= a < hi
  {
    BlockAddresses(v, p, a);
  }

  lemma CandidatesAreContained(plans: set<Plan>, recs: Records)
    requires AllValid(plans) && FromPlans(plans, recs)
    ensures Contained(plans, recs)
  {
    forall k | k in HealthyKeys(recs) ensures InsideSome(plans, recs[k].cidr) {
      var plan :| plan in plans && recs[k].cidr in Chunks(plan);
      var i :| 0 <= i < plan.size && Chunks(plan)[i] == recs[k].cidr;
      forall a: Address | InBlock(recs[k].cidr, a) ensures plan.base <= a < plan.base + ParentSpan(plan) {
        ChunkInsideParent(plan, i, a);
      }
      assert InsideParent(plan, recs[k].cidr);
    }
  }

  // ----- One call -----

  /** The call gets as far as writing a chunk, and the write leaves a whole record. */
  predicate StoresChunk(recs: Records, key: Key, f: Faults) {
    && !BlankName(key) && ReadState(recs, key, f.unreadable).Nothing? && !f.scanFails
    && (f.write.Written? || f.write.left.Whole?)
  }

  /** The text Allocate leaves as a whole record under key, if any. */
  function Chosen(texts: seq<string>, recs: Records, key: Key, f: Faults): Option<string> {
    if !StoresChunk(recs, key, f) then None
    else match FirstFree(texts, Used(recs, f.unreadable), 0)
      case None => None
      case Some(i) => Some(texts[i])
  }

  /** The scan of the files that could be read finds the same free chunk as a scan of all of them would. */
  predicate Sighted(texts: seq<string>, recs: Records, key: Key, f: Faults) {
    StoresChunk(recs, key, f) ==>
      FirstFree(texts, Used(recs, f.unreadable), 0) == FirstFree(texts, Used(recs, {}), 0)
  }

  /** Reading less finds a chunk that is free, or one that only the unread files hold. */
  lemma SeeingLess(texts: seq<string>, less: set<string>, more: set<string>)
    requires less <= more
    ensures var a, b := FirstFree(texts, less, 0), FirstFree(texts, more, 0);
            a == b <==> (a.Some? ==> texts[a.value] !in more)
  {
    var a, b := FirstFree(texts, less, 0), FirstFree(texts, more, 0);
    if a.Some? && b.Some? {
      assert a.value <= b.value && (texts[a.value] !in more ==> b.value <= a.value);
    }
  }

  /** So a call is sighted exactly when the chunk it stores is in no healthy file. */
  lemma SightedIsUnheld(texts: seq<string>, recs: Records, key: Key, f: Faults)
    ensures Sighted(texts, recs, key, f) <==>
            var c := Chosen(texts, recs, key, f); c.Some? ==> c.value !in Used(recs, {})
  {
    assert Used(recs, f.unreadable) <= Used(recs, {});
    SeeingLess(texts, Used(recs, f.unreadable), Used(recs, {}));
  }

  /** Reading every healthy file is enough. */
  lemma ReadableIsSighted(texts: seq<string>, recs: Records, key: Key, f: Faults)
    requires f.unreadable !! HealthyKeys(recs)
    ensures Sighted(texts, recs, key, f)
  {
    assert Used(recs, f.unreadable) == Used(recs, {});
  }

  lemma HealthyAfter(recs: Records, key: Key, rec: Record)
    ensures HealthyKeys(recs[key := rec]) ==
            if rec.Stored? then HealthyKeys(recs) + {key} else HealthyKeys(recs) - {key}
  {
  }

  lemma WriteCases(recs: Records, key: Key, c: string, w: WriteOutcome)
    ensures var recs' := WriteSpec(recs, key, c, w).0;
            if w.Written? || w.left.Whole? then recs' == recs[key := Stored(c)]
            else recs' == recs || recs' == recs[key := Corrupt]
  {
  }

  lemma AllocateCases(texts: seq<string>, recs: Records, key: Key, f: Faults)
    ensures var recs' := AllocateSpec(texts, recs, key, f).0;
            match Chosen(texts, recs, key, f)
            case Some(c) => key !in HealthyKeys(recs) && c in texts && recs' == recs[key := Stored(c)]
            case None => recs' == recs || (key !in HealthyKeys(recs) && recs' == recs[key := Corrupt])
  {
    if !BlankName(key) && ReadState(recs, key, f.unreadable).Nothing? && !f.scanFails {
      assert key !in HealthyKeys(recs);
      var free := FirstFree(texts, Used(recs, f.unreadable), 0);
      if free.Some? {
        assert texts[free.value] in texts;
        WriteCases(recs, key, texts[free.value], f.write);
      }
    }
  }

  lemma AllocateEffect(texts: seq<string>, recs: Records, key: Key, f: Faults)
    ensures var recs' := AllocateSpec(texts, recs, key, f).0;
            match Chosen(texts, recs, key, f)
            case Some(c) =>
              && key !in HealthyKeys(recs) && c in texts && recs' == recs[key := Stored(c)]
              && HealthyKeys(recs') == HealthyKeys(recs) + {key}
            case None =>
              HealthyKeys(recs') == HealthyKeys(recs) && forall k <- HealthyKeys(recs) :: recs'[k] == recs[k]
  {
    AllocateCases(texts, recs, key, f);
    match Chosen(texts, recs, key, f) {
      case Some(c) => HealthyAfter(recs, key, Stored(c));
      case None => HealthyAfter(recs, key, Corrupt);
    }
  }

  lemma AllocateKeepsAligned(p: nat, texts: seq<string>, recs: Records, key: Key, f: Faults)
    requires AllOnGrid(p, texts) && Aligned(p, recs)
    ensures Aligned(p, AllocateSpec(texts, recs, key, f).0)
  {
    AllocateEffect(texts, recs, key, f);
  }

  /** On texts: a call keeps them distinct exactly when it is sighted. */
  lemma AllocateKeepsDistinct(texts: seq<string>, recs: Records, key: Key, f: Faults)
    requires Distinct(recs)
    ensures Distinct(AllocateSpec(texts, recs, key, f).0) <==> Sighted(texts, recs, key, f)
  {
    var recs', c := AllocateSpec(texts, recs, key, f).0, Chosen(texts, recs, key, f);
    AllocateEffect(texts, recs, key, f);
    SightedIsUnheld(texts, recs, key, f);
    if c.Some? && c.value in Used(recs, {}) {
      var k :| k in HealthyKeys(recs) && recs[k].cidr == c.value;
      assert k != key && recs'[k].cidr == recs'[key].cidr;
    }
  }

  /** A call keeps ranges disjoint if and only if its scan found the chunk a scan of all files would have found. */
  lemma AllocateKeepsDisjoint(p: nat, texts: seq<string>, recs: Records, key: Key, f: Faults)
    requires AllOnGrid(p, texts) && Aligned(p, recs) && Disjoint(recs)
    ensures var recs' := AllocateSpec(texts, recs, key, f).0;
            && Aligned(p, recs')
            && (Disjoint(recs') <==> Sighted(texts, recs, key, f))
  {
    AllocateKeepsAligned(p, texts, recs, key, f);
    DistinctIsDisjoint(p, recs);
    DistinctIsDisjoint(p, AllocateSpec(texts, recs, key, f).0);
    AllocateKeepsDistinct(texts, recs, key, f);
  }

  // ----- Runs -----

  /** Allocate calls, each with the candidates of the parent configured at its time, Release calls, and files damaged
      behind the allocator's back. */
  datatype Step =
    | Allocate(texts: seq<string>, key: Key, f: Faults)
    | Release(key: Key, removeFails: bool)
    | Damage(key: Key)

  function Apply(recs: Records, s: Step): Records {
    match s
    case Allocate(texts, key, f) => AllocateSpec(texts, recs, key, f).0
    case Release(key, removeFails) => ReleaseSpec(recs, key, removeFails).0
    case Damage(key) => recs[key := Corrupt]
  }

  /** The prefix length is the same throughout, whatever the parents are. */
  ghost predicate StepOnGrid(p: nat, s: Step) { s.Allocate? ==> AllOnGrid(p, s.texts) }

  predicate StepSighted(recs: Records, s: Step) { s.Allocate? ==> Sighted(s.texts, recs, s.key, s.f) }

  ghost predicate AlwaysSighted(recs: Records, run: seq<Step>)
    decreases run
  {
    run != [] ==> StepSighted(recs, run[0]) && AlwaysSighted(Apply(recs, run[0]), run[1..])
  }

  /** In every state of the run the assigned ranges are disjoint. */
  ghost predicate AlwaysDisjoint(recs: Records, run: seq<Step>)
    decreases run
  {
    Disjoint(recs) && (run != [] ==> AlwaysDisjoint(Apply(recs, run[0]), run[1..]))
  }

  /** In every state of the run each assigned range lies in one of the parents. */
  ghost predicate AlwaysContained(plans: set<Plan>, recs: Records, run: seq<Step>)
    requires AllValid(plans)
    decreases run
  {
    Contained(plans, recs) && (run != [] ==> AlwaysContained(plans, Apply(recs, run[0]), run[1..]))
  }

  lemma StepKeeps(p: nat, recs: Records, s: Step)
    requires StepOnGrid(p, s) && Aligned(p, recs) && Disjoint(recs)
    ensures var recs' := Apply(recs, s);
            Aligned(p, recs') && (Disjoint(recs') <==> StepSighted(recs, s))
  {
    var recs' := Apply(recs, s);
    if s.Allocate? {
      AllocateKeepsDisjoint(p, s.texts, recs, s.key, s.f);
    } else {
      assert forall k <- HealthyKeys(recs') :: k in HealthyKeys(recs) && recs'[k] == recs[k];
    }
  }

  /** Over every run, with failed writes, failed scans, damaged files and unreadable ones, and with the parent
      reconfigured on the way: ranges stay disjoint if and only if every call's scan found the chunk a scan of all
      files would have found. */
  lemma {:induction false} RunStaysDisjoint(p: nat, recs: Records, run: seq<Step>)
    requires (forall s <- run :: StepOnGrid(p, s)) && Aligned(p, recs) && Disjoint(recs)
    ensures AlwaysDisjoint(recs, run) <==> AlwaysSighted(recs, run)
    decreases run
  {
    if run != [] {
      var recs' := Apply(recs, run[0]);
      StepKeeps(p, recs, run[0]);
      if Disjoint(recs') {
        RunStaysDisjoint(p, recs', run[1..]);
      } else {
        assert !AlwaysDisjoint(recs', run[1..]);
      }
    }
  }

  /** Every call of the run can read every healthy file there is at its time. */
  ghost predicate AlwaysReadable(recs: Records, run: seq<Step>)
    decreases run
  {
    run != [] ==>
      && (run[0].Allocate? ==> run[0].f.unreadable !! HealthyKeys(recs))
      && AlwaysReadable(Apply(recs, run[0]), run[1..])
  }

  lemma {:induction false} ReadableRunIsSighted(recs: Records, run: seq<Step>)
    requires AlwaysReadable(recs, run)
    ensures AlwaysSighted(recs, run)
    decreases run
  {
    if run != [] {
      if run[0].Allocate? {
        ReadableIsSighted(run[0].texts, recs, run[0].key, run[0].f);
      }
      ReadableRunIsSighted(Apply(recs, run[0]), run[1..]);
    }
  }

  /** A run whose calls can read every healthy file keeps all ranges disjoint, whatever else fails. */
  lemma ReadableRunStaysDisjoint(p: nat, recs: Records, run: seq<Step>)
    requires (forall s <- run :: StepOnGrid(p, s)) && Aligned(p, recs) && Disjoint(recs) && AlwaysReadable(recs, run)
    ensures AlwaysDisjoint(recs, run)
  {
    ReadableRunIsSighted(recs, run);
    RunStaysDisjoint(p, recs, run);
  }

  /** An Allocate call of one of these allocators, or another step. */
  ghost predicate StepOfSome(plans: set<Plan>, s: Step)
    requires AllValid(plans)
  {
    s.Allocate? ==> exists plan <- plans :: s.texts == Chunks(plan)
  }

  lemma StepStaysFromPlans(plans: set<Plan>, recs: Records, s: Step)
    requires AllValid(plans) && FromPlans(plans, recs) && StepOfSome(plans, s)
    ensures FromPlans(plans, Apply(recs, s))
  {
    if s.Allocate? {
      AllocateEffect(s.texts, recs, s.key, s.f);
    }
    var recs' := Apply(recs, s);
    forall k | k in HealthyKeys(recs') ensures OfSome(plans, recs'[k].cidr) {
      if k in HealthyKeys(recs) && recs'[k] == recs[k] {
        assert OfSome(plans, recs[k].cidr);
      } else {
        assert s.Allocate? && recs'[k].cidr in s.texts;
      }
    }
  }

  /** Over every run nothing outside the parents is ever assigned. */
  lemma {:induction false} RunStaysContained(plans: set<Plan>, recs: Records, run: seq<Step>)
    requires AllValid(plans) && FromPlans(plans, recs) && forall s <- run :: StepOfSome(plans, s)
    ensures AlwaysContained(plans, recs, run)
    decreases run
  {
    CandidatesAreContained(plans, recs);
    if run != [] {
      StepStaysFromPlans(plans, recs, run[0]);
      RunStaysContained(plans, Apply(recs, run[0]), run[1..]);
    }
  }

  /** A healthy file that cannot be read is handed out a second time. */
  lemma UnreadableIsReassigned(p: nat, texts: seq<string>)
    requires AllOnGrid(p, texts) && texts != []
    ensures var held := Key("r", "a");
            var recs := map[held := Stored(texts[0])];
            var r := AllocateSpec(texts, recs, Key("r", "b"), Faults(false, {held}, Written));
            Disjoint(recs) && r.1 == Ok(texts[0]) && !Disjoint(r.0)
  {
    var held, key := Key("r", "a"), Key("r", "b");
    var recs := map[held := Stored(texts[0])];
    var f := Faults(false, {held}, Written);
    BlindAllocate(texts, held, key);
    assert texts[0] in texts && HealthyKeys(recs) == {held};
    assert recs[held].cidr in Used(recs, {});
    DistinctIsDisjoint(p, recs);
    AllocateKeepsDisjoint(p, texts, recs, key, f);
  }

  lemma BlindAllocate(texts: seq<string>, held: Key, key: Key)
    requires texts != [] && held == Key("r", "a") && key == Key("r", "b")
    ensures var recs := map[held := Stored(texts[0])];
            var f := Faults(false, {held}, Written);
            AllocateSpec(texts, recs, key, f).1 == Ok(texts[0]) && Chosen(texts, recs, key, f) == Some(texts[0])
  {
    var recs := map[held := Stored(texts[0])];
    assert held.space[0] != key.space[0];
    assert TrimSpace("r") == "r" && TrimSpace("b") == "b";
    assert Used(recs, {held}) == {};
    assert FirstFree(texts, {}, 0) == Some(0);
  }

  // ----- What is answered -----

  /** A space without a file gets the lowest chunk no file read holds, spelled out: base + i * span, for the first i. */
  lemma AllocateAnswers(plan: Plan, texts: seq<string>, recs: Records, key: Key, f: Faults, i: nat)
    requires !BlankName(key) && key !in recs && !f.scanFails && f.write.Written?
    requires i < |texts| && texts[i] !in Used(recs, f.unreadable)
    requires forall j | 0 <= j < i :: texts[j] in Used(recs, f.unreadable)
    ensures var (recs', r) := AllocateSpec(texts, recs, key, f);
            && r.Ok? && recs' == recs[key := Stored(r.cidr)]
            && (ValidPlan(plan) && texts == Chunks(plan) ==>
                  Names(r.cidr, plan.base + i * Pow2(32 - plan.prefixLen), plan.prefixLen))
  {
    assert FirstFree(texts, Used(recs, f.unreadable), 0) == Some(i);
    if ValidPlan(plan) && texts == Chunks(plan) {
      ChunkReads(plan, i);
    }
  }

  /** The first space of a host over 10.88.0.0/16 in /24 chunks. */
  lemma FirstSubnet(key: Key)
    requires !BlankName(key)
    ensures var plan := NewPlan(Block(0x0A58_0000, 16), 24);
            plan.Some? && AllocateSpec(Chunks(plan.value), map[], key, NoFaults).1 == Ok("10.88.0.0/24")
  {
    var plan := NewPlan(Block(0x0A58_0000, 16), 24).value;
    FirstPlan(plan);
    FirstText(plan.base, plan.prefixLen);
    assert FirstFree(Chunks(plan), {}, 0) == Some(0);
  }

  lemma FirstPlan(plan: Plan)
    requires NewPlan(Block(0x0A58_0000, 16), 24) == Some(plan)
    ensures plan.size > 0 && Chunks(plan)[0] == Cidr(plan.base, plan.prefixLen)
    ensures plan.base == 0x0A58_0000 && plan.prefixLen == 24
  {
    assert Pow2(8) == 256;
    Pow2Add(8, 8);
    ShiftOneExact(8);
    ShiftOneExact(16);
    assert plan.base == 0x0A58_0000;
    ChunkExact(plan, 0);
  }

  lemma FirstText(v: Address, p: nat)
    requires v == 0x0A58_0000 && p == 24
    ensures Cidr(v, p) == "10.88.0.0/24"
  {
    FirstSpelled();
    assert v / 0x100_0000 == 10 && v / 0x1_0000 % 256 == 88 && v / 0x100 % 256 == 0 && v % 256 == 0;
    SpelledIsCidr(v, p, "10.88.0.0/24", "10", "88", "0", "0", "24");
  }

  lemma FirstSpelled()
    ensures Spells("10.88.0.0/24", 10, 88, 0, 0, 24, "10", "88", "0", "0", "24")
  {
    WritesSmall();
  }

  lemma WritesSmall()
    ensures Writes("0", 0) && Writes("10", 10) && Writes("24", 24) && Writes("88", 88)
  {
    assert Value("") == 0;
    assert "0"[..0] == "";
    assert "10"[..1] == "1" && "1"[..0] == "";
    assert "24"[..1] == "2" && "2"[..0] == "";
    assert "88"[..1] == "8" && "8"[..0] == "";
  }

  /** A space without a name, or whose own file is damaged or unreadable, is refused and its file left alone; one with
      a healthy file gets what the file says. */
  lemma OwnFileDecides(texts: seq<string>, recs: Records, key: Key, f: Faults)
    ensures TrimSpace(key.realm) == "" || TrimSpace(key.space) == "" ==>
      AllocateSpec(texts, recs, key, f) == (recs, Err(NameRequired))
    ensures !BlankName(key) && key in recs && !recs[key].Absent? ==>
      AllocateSpec(texts, recs, key, f) ==
      (recs, if key in f.unreadable then Err(ReadFailed)
             else if recs[key].Corrupt? then Err(StateCorrupt)
             else Ok(recs[key].cidr))
  {
  }

  /** A space without a file: a failed scan or write is reported as such, exhaustion exactly when every chunk is seen
      in use, and success exactly when a chunk was written. */
  lemma FreshAnswer(texts: seq<string>, recs: Records, key: Key, f: Faults)
    requires !BlankName(key) && key !in recs
    ensures var (recs', r) := AllocateSpec(texts, recs, key, f);
            && (r == Err(ScanFailed) <==> f.scanFails)
            && (r == Err(Exhausted) <==> !f.scanFails && forall c <- texts :: c in Used(recs, f.unreadable))
            && (r == Err(WriteFailed) ==> !f.write.Written?)
            && (r.Ok? ==> f.write.Written? && recs' == recs[key := Stored(r.cidr)])
            && (r.Ok? || r.error in {ScanFailed, Exhausted, WriteFailed})
            && (r.Err? && r.error in {ScanFailed, Exhausted} ==> recs' == recs)
  {
    var free := FirstFree(texts, Used(recs, f.unreadable), 0);
    assert free.Some? ==> texts[free.value] in texts;
  }

  // ----- Capacity -----

  ghost function IndexOf(texts: seq<string>, c: string): (i: nat)
    requires c in texts
    ensures i < |texts| && texts[i] == c
  {
    var i :| 0 <= i < |texts| && texts[i] == c;
    i
  }

  /** Which chunk each healthy file holds. */
  ghost function Held(texts: seq<string>, recs: Records): map<Key, nat>
    requires FromCandidates(texts, recs)
  {
    map k | k in HealthyKeys(recs) :: IndexOf(texts, recs[k].cidr)
  }

  lemma HeldOnce(texts: seq<string>, recs: Records)
    requires FromCandidates(texts, recs) && Distinct(recs)
    ensures |Held(texts, recs).Values| == |HealthyKeys(recs)| && Held(texts, recs).Values <= Below(|texts|)
  {
    var held := Held(texts, recs);
    assert held.Keys == HealthyKeys(recs);
    InjectiveSize(held);
  }

  lemma HeldIsUsed(texts: seq<string>, recs: Records, j: nat)
    requires AllDifferent(texts) && FromCandidates(texts, recs) && j < |texts|
    ensures texts[j] in Used(recs, {}) <==> j in Held(texts, recs).Values
  {
    var held := Held(texts, recs);
    if texts[j] in Used(recs, {}) {
      var k :| k in HealthyKeys(recs) && recs[k].cidr == texts[j];
      assert held[k] == j;
    }
  }

  /** Every healthy file occupies one chunk, so exhaustion means as many files as chunks. */
  lemma CountsHealthy(texts: seq<string>, recs: Records)
    requires AllDifferent(texts) && FromCandidates(texts, recs) && Distinct(recs)
    ensures |HealthyKeys(recs)| <= |texts|
    ensures FirstFree(texts, Used(recs, {}), 0).None? <==> |HealthyKeys(recs)| == |texts|
  {
    HeldOnce(texts, recs);
    FullSubset(Held(texts, recs).Values, |texts|);
    forall j: nat | j < |texts| ensures texts[j] in Used(recs, {}) <==> j in Held(texts, recs).Values {
      HeldIsUsed(texts, recs, j);
    }
  }

  lemma StoringOne(texts: seq<string>, recs: Records, key: Key, c: string)
    requires FromCandidates(texts, recs) && Distinct(recs)
    requires key !in HealthyKeys(recs) && c in texts && c !in Used(recs, {})
    ensures var recs' := recs[key := Stored(c)];
            && HealthyKeys(recs') == HealthyKeys(recs) + {key}
            && Used(recs', {}) == Used(recs, {}) + {c}
            && FromCandidates(texts, recs') && Distinct(recs')
  {
    var recs' := recs[key := Stored(c)];
    forall k | k in HealthyKeys(recs) ensures recs'[k] == recs[k] && recs[k].cidr != c {
      assert recs[k].cidr in Used(recs, {});
    }
    assert HealthyKeys(recs') == HealthyKeys(recs) + {key};
    assert recs'[key].cidr == c;
  }

  /** A fresh call takes exactly one chunk, the lowest free one, and touches nothing else. */
  lemma FreshAllocate(texts: seq<string>, recs: Records, key: Key)
    requires AllDifferent(texts) && FromCandidates(texts, recs) && Distinct(recs)
    requires !BlankName(key) && ReadState(recs, key, {}).Nothing?
    ensures var (recs', r) := AllocateSpec(texts, recs, key, NoFaults);
            && (r.Ok? <==> |HealthyKeys(recs)| < |texts|)
            && (r.Err? ==> r.error == Exhausted && recs' == recs)
            && (r.Ok? ==>
                  && recs' == recs[key := Stored(r.cidr)]
                  && HealthyKeys(recs') == HealthyKeys(recs) + {key} && key !in HealthyKeys(recs)
                  && Used(recs', {}) == Used(recs, {}) + {r.cidr} && r.cidr !in Used(recs, {}))
            && FromCandidates(texts, recs') && Distinct(recs')
  {
    CountsHealthy(texts, recs);
    var free := FirstFree(texts, Used(recs, {}), 0);
    if free.Some? {
      StoringOne(texts, recs, key, texts[free.value]);
    }
  }

  /** Serves the spaces in turn, recording each outcome. */
  function Serve(texts: seq<string>, recs: Records, keys: seq<Key>): (Records, seq<Result>)
    decreases keys
  {
    if keys == [] then (recs, [])
    else
      var (recs', r) := AllocateSpec(texts, recs, keys[0], NoFaults);
      var (recs'', rs) := Serve(texts, recs', keys[1..]);
      (recs'', [r] + rs)
  }

  /** Spaces never seen before, no two alike. */
  ghost predicate NewSpaces(recs: Records, keys: seq<Key>) {
    && (forall i, j | 0 <= i < j < |keys| :: keys[i] != keys[j])
    && (forall key <- keys :: !BlankName(key) && ReadState(recs, key, {}).Nothing?)
  }

  lemma RestStaysNew(recs: Records, keys: seq<Key>, rec: Record)
    requires keys != [] && NewSpaces(recs, keys)
    ensures NewSpaces(recs, keys[1..]) && NewSpaces(recs[keys[0] := rec], keys[1..])
  {
    forall key | key in keys[1..] ensures key in keys && key != keys[0] {
    }
  }

  /** Exactly as many new spaces are served as chunks are free, and no further one. */
  lemma {:induction false} ServesEveryFreeChunk(texts: seq<string>, recs: Records, keys: seq<Key>)
    requires AllDifferent(texts) && FromCandidates(texts, recs) && Distinct(recs) && NewSpaces(recs, keys)
    ensures var rs := Serve(texts, recs, keys).1;
            |rs| == |keys| && forall i | 0 <= i < |keys| :: rs[i].Ok? <==> |HealthyKeys(recs)| + i < |texts|
    decreases keys
  {
    if keys != [] {
      var (recs', r) := AllocateSpec(texts, recs, keys[0], NoFaults);
      ServeOne(texts, recs, keys);
      ServesEveryFreeChunk(texts, recs', keys[1..]);
      var rs, rs' := Serve(texts, recs, keys).1, Serve(texts, recs', keys[1..]).1;
      assert rs == [r] + rs';
      forall i | 0 <= i < |keys| ensures rs[i].Ok? <==> |HealthyKeys(recs)| + i < |texts| {
        if i > 0 {
          assert rs[i] == rs'[i - 1];
        }
      }
    }
  }

  lemma ServeOne(texts: seq<string>, recs: Records, keys: seq<Key>)
    requires AllDifferent(texts) && FromCandidates(texts, recs) && Distinct(recs) && keys != [] && NewSpaces(recs, keys)
    ensures var (recs', r) := AllocateSpec(texts, recs, keys[0], NoFaults);
            && FromCandidates(texts, recs') && Distinct(recs') && NewSpaces(recs', keys[1..])
            && (r.Ok? <==> |HealthyKeys(recs)| < |texts|)
            && |HealthyKeys(recs)| <= |texts|
            && |HealthyKeys(recs')| == |HealthyKeys(recs)| + if r.Ok? then 1 else 0
  {
    assert keys[0] in keys;
    FreshAllocate(texts, recs, keys[0]);
    CountsHealthy(texts, recs);
    var r := AllocateSpec(texts, recs, keys[0], NoFaults).1;
    RestStaysNew(recs, keys, if r.Ok? then Stored(r.cidr) else Absent);
  }

  /** Asking again returns the same subnet and changes nothing, from any allocator over the same files. */
  lemma AllocateIsStable(texts: seq<string>, recs: Records, key: Key, f: Faults, texts': seq<string>, f': Faults)
    requires key !in f'.unreadable
    ensures var (recs', r) := AllocateSpec(texts, recs, key, f);
            r.Ok? ==> AllocateSpec(texts', recs', key, f') == (recs', r)
  {
    AllocateEffect(texts, recs, key, f);
  }

  /** Release gives the chunk back: the next scan no longer sees it, and nothing else changed. */
  lemma ReleaseFreesTheChunk(recs: Records, key: Key)
    requires !BlankName(key)
    requires Distinct(recs)
    ensures var (recs', ok) := ReleaseSpec(recs, key, false);
            && ok
            && HealthyKeys(recs') == HealthyKeys(recs) - {key}
            && (forall k <- recs :: k != key ==> k in recs' && recs'[k] == recs[k])
            && (key in HealthyKeys(recs) ==> Used(recs', {}) == Used(recs, {}) - {recs[key].cidr})
  {
    var recs' := ReleaseSpec(recs, key, false).0;
    assert HealthyKeys(recs') == HealthyKeys(recs) - {key};
    if key in HealthyKeys(recs) {
      forall c | c in Used(recs, {}) - {recs[key].cidr} ensures c in Used(recs', {}) {
        var k :| k in HealthyKeys(recs) && recs[k].cidr == c;
        assert k in HealthyKeys(recs');
      }
    }
  }
}

/** Proposing and deciding dry-run block plans for the source address of an incident. */
module IpBlocks {
  import opened Prelude

  datatype Address = V4(bits: nat) | V6(bits: nat)

  datatype Network = Net4(base: nat, prefix: nat) | Net6(base: nat, prefix: nat)

  // What the correlation of an incident holds as its source: text that is no address, or an address
  // whose text is or is not the canonical one.
  datatype Source = NotAnAddress | Text(address: Address, canonical: bool)

  datatype Reason = NotAddress | NotCanonical | NeverBlock | Allowlisted

  datatype Verdict = Permitted(address: Address) | Refused(reason: Reason)

  datatype Status = Proposed | Approved | Rejected

  datatype Command = Command(table: string, elements: string, address: Address)

  datatype Plan = Plan(
    incident: nat, address: Address, status: Status, command: Command, proposer: nat, proposedAt: int,
    expiresAt: int, request: string, decider: Option<nat>, decidedAt: Option<int>)

  datatype Entry = Entry(cidr: Network, title: string, reason: string, createdAt: int, revokedAt: Option<int>)

  datatype AuditRow =
    | PlanRow(action: Status, plan: nat, actor: nat, request: string, proposer: nat)
    | EntryRow(created: bool, entry: nat)

  datatype State = State(plans: seq<Plan>, entries: seq<Entry>, audit: seq<AuditRow>)

  // `libraryRefuses` stands for the address properties of the standard library, the second layer.
  datatype Config = Config(
    incidents: map<nat, Option<Source>>, libraryRefuses: Address -> bool, ttl: int, table: string, set4: string,
    set6: string)

  datatype Outcome =
    | InvalidTtl | InvalidIdentifier | IncidentNotFound | NoSourceAddress | ProposalRefused(reason: Reason)
    | Created(plan: nat) | Reused(plan: nat)
    | PlanNotFound | AlreadyDecided | Expired | SameOperator | NowBlocked(reason: Reason) | Decided(status: Status)
    | InvalidEntry | EntryAdded(entry: nat) | EntryRevoked | NoSuchEntry | AlreadyRevoked

  datatype Call =
    | Propose(actor: nat, incident: nat, request: string, now: int)
    | Approve(actor: nat, plan: nat, request: string, second: bool, now: int)
    | Reject(actor: nat, plan: nat, request: string, now: int)
    | AddEntry(cidr: Option<Network>, title: string, reason: string, now: int)
    | RevokeEntry(entry: nat, now: int)

  // ---- Policy -------------------------------------------------------------------------------

  function Pow2(n: nat): (r: nat)
    ensures r > 0
  {
    if n >= 16 then 0x1_0000 * Pow2(n - 16) else if n == 0 then 1 else 2 * Pow2(n - 1)
  }

  // The number of addresses in a network.
  function Size(n: Network): (r: nat)
    ensures r > 0
  {
    var width := if n.Net4? then 32 else 128;
    if n.prefix <= width then Pow2(width - n.prefix) else 1
  }

  predicate Within(a: Address, n: Network) {
    a.V4? == n.Net4? && a.bits / Size(n) == n.base / Size(n)
  }

  function Quad(a: nat, b: nat, c: nat, d: nat): nat {
    ((a * 256 + b) * 256 + c) * 256 + d
  }

  // An IPv6 address whose groups after the second are zero.
  function Hextets(a: nat, b: nat): nat {
    (a * 65536 + b) * Pow2(96)
  }

  const NEVER_BLOCK: seq<Network> := [
    Net4(Quad(0, 0, 0, 0), 8), Net4(Quad(10, 0, 0, 0), 8), Net4(Quad(100, 64, 0, 0), 10),
    Net4(Quad(127, 0, 0, 0), 8), Net4(Quad(169, 254, 0, 0), 16), Net4(Quad(172, 16, 0, 0), 12),
    Net4(Quad(192, 0, 0, 0), 24), Net4(Quad(192, 0, 2, 0), 24), Net4(Quad(192, 168, 0, 0), 16),
    Net4(Quad(198, 18, 0, 0), 15), Net4(Quad(198, 51, 100, 0), 24), Net4(Quad(203, 0, 113, 0), 24),
    Net4(Quad(224, 0, 0, 0), 4), Net4(Quad(240, 0, 0, 0), 4), Net4(Quad(255, 255, 255, 255), 32),
    Net6(0, 128), Net6(1, 128), Net6(Hextets(0xfc00, 0), 7), Net6(Hextets(0xfe80, 0), 10),
    Net6(Hextets(0xff00, 0), 8), Net6(Hextets(0x2001, 0), 32), Net6(Hextets(0x2002, 0), 16),
    Net6(Hextets(0x2001, 0xdb8), 32)]

  predicate IsNeverBlock(c: Config, a: Address) {
    c.libraryRefuses(a) || exists n :: n in NEVER_BLOCK && Within(a, n)
  }

  predicate OnAllowlist(entries: seq<Entry>, a: Address) {
    exists e :: e in entries && e.revokedAt.None? && Within(a, e.cidr)
  }

  predicate Mapped(a: Address) {
    a.V6? && a.bits / 0x1_0000_0000 == 0xffff
  }

  function Classify(c: Config, entries: seq<Entry>, source: Source): Verdict {
    if source.NotAnAddress? then Refused(NotAddress)
    else if Mapped(source.address) || !source.canonical then Refused(NotCanonical)
    else if IsNeverBlock(c, source.address) then Refused(NeverBlock)
    else if OnAllowlist(entries, source.address) then Refused(Allowlisted)
    else Permitted(source.address)
  }

  // One lower-case letter, then at most 31 lower-case letters, digits and underscores.
  predicate NftIdentifier(s: string) {
    && 1 <= |s| <= 32 && 'a' <= s[0] <= 'z'
    && forall i :: 0 <= i < |s| ==> 'a' <= s[i] <= 'z' || '0' <= s[i] <= '9' || s[i] == '_'
  }

  predicate ValidIdentifiers(c: Config) {
    NftIdentifier(c.table) && NftIdentifier(c.set4) && NftIdentifier(c.set6)
  }

  function BlockCommand(c: Config, a: Address): Command {
    Command(c.table, if a.V4? then c.set4 else c.set6, a)
  }

  // ---- Effect of one call -------------------------------------------------------------------

  predicate Pending(plan: Plan, incident: nat, a: Address) {
    plan.status == Proposed && plan.incident == incident && plan.address == a
  }

  function FindPending(plans: seq<Plan>, incident: nat, a: Address): (r: Option<nat>)
    ensures r.Some? ==> r.value < |plans| && Pending(plans[r.value], incident, a)
    ensures r.None? ==> forall p | p in plans :: !Pending(p, incident, a)
    decreases |plans|
  {
    if plans == [] then None
    else if Pending(plans[|plans| - 1], incident, a) then Some(|plans| - 1)
    else FindPending(plans[..|plans| - 1], incident, a)
  }

  function NewPlan(c: Config, call: Call, a: Address): Plan
    requires call.Propose?
  {
    Plan(call.incident, a, Proposed, BlockCommand(c, a), call.actor, call.now, call.now + c.ttl, call.request,
         None, None)
  }

  function Refreshed(c: Config, plan: Plan, call: Call, a: Address): Plan
    requires call.Propose?
  {
    plan.(command := BlockCommand(c, a), proposer := call.actor, proposedAt := call.now,
          expiresAt := call.now + c.ttl, request := call.request)
  }

  function Proposal(c: Config, s: State, call: Call, a: Address): (State, Outcome)
    requires call.Propose?
  {
    var existing := FindPending(s.plans, call.incident, a);
    if existing.Some? && s.plans[existing.value].expiresAt > call.now then (s, Reused(existing.value))
    else
      var (k, plans) :=
        if existing.Some?
        then (existing.value, s.plans[existing.value := Refreshed(c, s.plans[existing.value], call, a)])
        else (|s.plans|, s.plans + [NewPlan(c, call, a)]);
      (s.(plans := plans, audit := s.audit + [PlanRow(Proposed, k, call.actor, call.request, call.actor)]), Created(k))
  }

  function DecidedPlan(plan: Plan, status: Status, actor: nat, now: int): Plan {
    plan.(status := status, decider := Some(actor), decidedAt := Some(now))
  }

  function Decide(s: State, k: nat, status: Status, actor: nat, request: string, now: int): State
    requires k < |s.plans|
  {
    s.(plans := s.plans[k := DecidedPlan(s.plans[k], status, actor, now)],
       audit := s.audit + [PlanRow(status, k, actor, request, s.plans[k].proposer)])
  }

  function Approval(c: Config, s: State, call: Call): (State, Outcome)
    requires call.Approve?
  {
    if call.plan >= |s.plans| then (s, PlanNotFound)
    else
      var plan := s.plans[call.plan];
      if plan.status != Proposed then (s, AlreadyDecided)
      else if plan.expiresAt <= call.now then (s, Expired)
      else if call.second && plan.proposer == call.actor then (s, SameOperator)
      else
        match Classify(c, s.entries, Text(plan.address, true))
        case Refused(reason) =>
          (Decide(s, call.plan, Rejected, call.actor, call.request, call.now), NowBlocked(reason))
        case Permitted(_) =>
          (Decide(s, call.plan, Approved, call.actor, call.request, call.now), Decided(Approved))
  }

  function Effect(c: Config, s: State, call: Call): (State, Outcome) {
    match call
    case Propose(_, incident, _, _) =>
      if c.ttl < 1 then (s, InvalidTtl)
      else if incident !in c.incidents then (s, IncidentNotFound)
      else if c.incidents[incident].None? then (s, NoSourceAddress)
      else
        (match Classify(c, s.entries, c.incidents[incident].value)
         case Refused(reason) => (s, ProposalRefused(reason))
         case Permitted(a) => if ValidIdentifiers(c) then Proposal(c, s, call, a) else (s, InvalidIdentifier))
    case Approve(_, _, _, _, _) => Approval(c, s, call)
    case Reject(actor, k, request, now) =>
      if k >= |s.plans| then (s, PlanNotFound)
      else if s.plans[k].status != Proposed then (s, AlreadyDecided)
      else if s.plans[k].expiresAt <= now then (s, Expired)
      else (Decide(s, k, Rejected, actor, request, now), Decided(Rejected))
    case AddEntry(cidr, title, reason, now) =>
      if cidr.None? || !(1 <= |title| <= 100) || !(1 <= |reason| <= 500) || ActiveEntry(s.entries, cidr.value) then
        (s, InvalidEntry)
      else
        (s.(entries := s.entries + [Entry(cidr.value, title, reason, now, None)],
            audit := s.audit + [EntryRow(true, |s.entries|)]), EntryAdded(|s.entries|))
    case RevokeEntry(k, now) =>
      if k >= |s.entries| then (s, NoSuchEntry)
      else if s.entries[k].revokedAt.Some? then (s, AlreadyRevoked)
      else
        (s.(entries := s.entries[k := s.entries[k].(revokedAt := Some(now))],
            audit := s.audit + [EntryRow(false, k)]), EntryRevoked)
  }

  predicate ActiveEntry(entries: seq<Entry>, cidr: Network) {
    exists e :: e in entries && e.cidr == cidr && e.revokedAt.None?
  }

  // ---- What the policy and the calls mean ---------------------------------------------------

  // The reserved ranges, by their first and last addresses.
  predicate Reserved4(x: nat) {
    || x <= 0x00ff_ffff || 0x0a00_0000 <= x <= 0x0aff_ffff || 0x6440_0000 <= x <= 0x647f_ffff
    || 0x7f00_0000 <= x <= 0x7fff_ffff || 0xa9fe_0000 <= x <= 0xa9fe_ffff || 0xac10_0000 <= x <= 0xac1f_ffff
    || 0xc000_0000 <= x <= 0xc000_00ff || 0xc000_0200 <= x <= 0xc000_02ff || 0xc0a8_0000 <= x <= 0xc0a8_ffff
    || 0xc612_0000 <= x <= 0xc613_ffff || 0xc633_6400 <= x <= 0xc633_64ff || 0xcb00_7100 <= x <= 0xcb00_71ff
    || 0xe000_0000 <= x <= 0xffff_ffff
  }

  predicate Reserved6(x: nat) {
    || x <= 1
    || 0xfc00_0000_0000_0000_0000_0000_0000_0000 <= x <= 0xfdff_ffff_ffff_ffff_ffff_ffff_ffff_ffff
    || 0xfe80_0000_0000_0000_0000_0000_0000_0000 <= x <= 0xfebf_ffff_ffff_ffff_ffff_ffff_ffff_ffff
    || 0xff00_0000_0000_0000_0000_0000_0000_0000 <= x <= 0xffff_ffff_ffff_ffff_ffff_ffff_ffff_ffff
    || 0x2001_0000_0000_0000_0000_0000_0000_0000 <= x <= 0x2001_0000_ffff_ffff_ffff_ffff_ffff_ffff
    || 0x2002_0000_0000_0000_0000_0000_0000_0000 <= x <= 0x2002_ffff_ffff_ffff_ffff_ffff_ffff_ffff
    || 0x2001_0db8_0000_0000_0000_0000_0000_0000 <= x <= 0x2001_0db8_ffff_ffff_ffff_ffff_ffff_ffff
  }

  lemma Range(a: Address, n: Network, low: nat, size: nat)
    requires a.V4? == n.Net4? && n.base == low && Size(n) == size && low % size == 0
    ensures Within(a, n) <==> low <= a.bits < low + size
  {
    WithinIsARange(a, n);
  }

  lemma Powers()
    ensures Pow2(0) == 1 && Pow2(8) == 0x100 && Pow2(16) == 0x1_0000 && Pow2(17) == 0x2_0000 && Pow2(20) == 0x10_0000
    ensures Pow2(22) == 0x40_0000 && Pow2(24) == 0x100_0000 && Pow2(28) == 0x1000_0000
  {
  }

  lemma WidePowers()
    ensures Pow2(96) == 0x1_0000_0000_0000_0000_0000_0000
    ensures Pow2(112) == 0x1_0000_0000_0000_0000_0000_0000_0000
    ensures Pow2(118) == 0x40_0000_0000_0000_0000_0000_0000_0000
    ensures Pow2(120) == 0x100_0000_0000_0000_0000_0000_0000_0000
    ensures Pow2(121) == 0x200_0000_0000_0000_0000_0000_0000_0000
  {
  }

  lemma ReservedFour(x: nat)
    ensures Reserved4(x) <==> exists n :: n in NEVER_BLOCK && Within(V4(x), n)
  {
    Powers();
    var a := V4(x);
    Range(a, NEVER_BLOCK[0], 0x0, 0x0100_0000);
    Range(a, NEVER_BLOCK[1], 0x0a00_0000, 0x0100_0000);
    Range(a, NEVER_BLOCK[2], 0x6440_0000, 0x0040_0000);
    Range(a, NEVER_BLOCK[3], 0x7f00_0000, 0x0100_0000);
    Range(a, NEVER_BLOCK[4], 0xa9fe_0000, 0x0001_0000);
    Range(a, NEVER_BLOCK[5], 0xac10_0000, 0x0010_0000);
    Range(a, NEVER_BLOCK[6], 0xc000_0000, 0x100);
    Range(a, NEVER_BLOCK[7], 0xc000_0200, 0x100);
    Range(a, NEVER_BLOCK[8], 0xc0a8_0000, 0x0001_0000);
    Range(a, NEVER_BLOCK[9], 0xc612_0000, 0x0002_0000);
    Range(a, NEVER_BLOCK[10], 0xc633_6400, 0x100);
    Range(a, NEVER_BLOCK[11], 0xcb00_7100, 0x100);
    Range(a, NEVER_BLOCK[12], 0xe000_0000, 0x1000_0000);
    Range(a, NEVER_BLOCK[13], 0xf000_0000, 0x1000_0000);
    Range(a, NEVER_BLOCK[14], 0xffff_ffff, 0x1);
  }

  lemma ReservedSix(x: nat)
    ensures Reserved6(x) <==> exists n :: n in NEVER_BLOCK && Within(V6(x), n)
  {
    Powers();
    WidePowers();
    var a := V6(x);
    Range(a, NEVER_BLOCK[15], 0x0,
          0x1);
    Range(a, NEVER_BLOCK[16], 0x1,
          0x1);
    Range(a, NEVER_BLOCK[17], 0xfc00_0000_0000_0000_0000_0000_0000_0000,
          0x0200_0000_0000_0000_0000_0000_0000_0000);
    Range(a, NEVER_BLOCK[18], 0xfe80_0000_0000_0000_0000_0000_0000_0000,
          0x0040_0000_0000_0000_0000_0000_0000_0000);
    Range(a, NEVER_BLOCK[19], 0xff00_0000_0000_0000_0000_0000_0000_0000,
          0x0100_0000_0000_0000_0000_0000_0000_0000);
    Range(a, NEVER_BLOCK[20], 0x2001_0000_0000_0000_0000_0000_0000_0000,
          0x0001_0000_0000_0000_0000_0000_0000);
    Range(a, NEVER_BLOCK[21], 0x2002_0000_0000_0000_0000_0000_0000_0000,
          0x0001_0000_0000_0000_0000_0000_0000_0000);
    Range(a, NEVER_BLOCK[22], 0x2001_0db8_0000_0000_0000_0000_0000_0000,
          0x0001_0000_0000_0000_0000_0000_0000);
  }

  // A name that needs no quoting in an nftables command.
  predicate IsName(s: string) {
    && s != [] && |s| < 33 && s[0] in "abcdefghijklmnopqrstuvwxyz"
    && forall i :: 0 <= i < |s| ==> s[i] in "abcdefghijklmnopqrstuvwxyz0123456789_"
  }

  lemma Letters(c: char)
    ensures c in "abcdefghijklmnopqrstuvwxyz" <==> 'a' <= c <= 'z'
    ensures c in "abcdefghijklmnopqrstuvwxyz0123456789_" <==> 'a' <= c <= 'z' || '0' <= c <= '9' || c == '_'
  {
  }

  lemma IdentifiersAreNames(s: string)
    ensures NftIdentifier(s) <==> IsName(s)
  {
    forall i | 0 <= i < |s|
      ensures s[i] in "abcdefghijklmnopqrstuvwxyz0123456789_"
              <==> 'a' <= s[i] <= 'z' || '0' <= s[i] <= '9' || s[i] == '_'
    {
      Letters(s[i]);
    }
    if s != [] {
      Letters(s[0]);
    }
  }

  predicate Forbidden(c: Config, a: Address) {
    c.libraryRefuses(a) || match a case V4(x) => Reserved4(x) case V6(x) => Reserved6(x)
  }

  // The first rule that speaks against an address gives the reason.
  predicate VerdictMeans(c: Config, entries: seq<Entry>, source: Source, v: Verdict) {
    match source
    case NotAnAddress => v == Refused(NotAddress)
    case Text(a, canonical) =>
      var mapped := a.V6? && 0xffff_0000_0000 <= a.bits <= 0xffff_ffff_ffff;
      && (v == Refused(NotCanonical) <==> mapped || !canonical)
      && (v == Refused(NeverBlock) <==> !mapped && canonical && Forbidden(c, a))
      && (v == Refused(Allowlisted) <==>
            && !mapped && canonical && !Forbidden(c, a)
            && exists k :: 0 <= k < |entries| && entries[k].revokedAt.None? && Within(a, entries[k].cidr))
      && (v.Permitted? ==> v.address == a) && v != Refused(NotAddress)
  }

  lemma VerdictIsMeant(c: Config, entries: seq<Entry>, source: Source)
    ensures VerdictMeans(c, entries, source, Classify(c, entries, source))
  {
    if source.Text? {
      var a := source.address;
      ReservedFour(a.bits);
      ReservedSix(a.bits);
      assert IsNeverBlock(c, a) <==> Forbidden(c, a);
      assert OnAllowlist(entries, a) <==>
             exists k :: 0 <= k < |entries| && entries[k].revokedAt.None? && Within(a, entries[k].cidr);
    }
  }

  // One plan is new, or proposed again after it expired; it says who proposed it, when and what to block.
  ghost predicate IsProposed(
    c: Config, s: State, s': State, call: Call, k: nat, a: Address)
    requires call.Propose?
  {
    var n := |s.plans|;
    && k < |s'.plans| && s'.entries == s.entries
    && (if exists j :: 0 <= j < n && Pending(s.plans[j], call.incident, a)
        then k < n && |s'.plans| == n && Pending(s.plans[k], call.incident, a) && s.plans[k].expiresAt <= call.now
        else k == n && |s'.plans| == n + 1 && s'.plans[k].decider == s'.plans[k].decidedAt == None)
    && (forall j :: 0 <= j < n && j != k ==> s'.plans[j] == s.plans[j])
    && var p := s'.plans[k];
       && p.incident == call.incident && p.address == a && p.status == Proposed
       && p.command.table == c.table && p.command.address == a
       && (a.V4? ==> p.command.elements == c.set4) && (a.V6? ==> p.command.elements == c.set6)
       && p.proposer == call.actor && p.request == call.request
       && p.proposedAt == call.now && p.expiresAt == call.now + c.ttl
       && s'.audit == s.audit + [PlanRow(Proposed, k, call.actor, call.request, call.actor)]
  }

  // One plan is decided and nothing else about it changes.
  ghost predicate IsDecided(s: State, s': State, k: nat, status: Status, actor: nat, request: string, now: int)
    requires k < |s.plans|
  {
    && |s'.plans| == |s.plans| && s'.entries == s.entries
    && (forall j :: 0 <= j < |s.plans| && j != k ==> s'.plans[j] == s.plans[j])
    && var (p, p') := (s.plans[k], s'.plans[k]);
       && p'.status == status && p'.decider == Some(actor) && p'.decidedAt == Some(now)
       && p' == p.(status := p'.status, decider := p'.decider, decidedAt := p'.decidedAt)
       && s'.audit == s.audit + [PlanRow(status, k, actor, request, p.proposer)]
  }

  // The whole effect of a call on the plans, with the checks in the order in which they are made.
  ghost predicate ProposalMeans(c: Config, s: State, s': State, call: Call, outcome: Outcome)
    requires call.Propose?
  {
    if c.ttl < 1 then s' == s && outcome == InvalidTtl
    else if call.incident !in c.incidents then s' == s && outcome == IncidentNotFound
    else if c.incidents[call.incident] == None then s' == s && outcome == NoSourceAddress
    else
      exists v | VerdictMeans(c, s.entries, c.incidents[call.incident].value, v) ::
        match v
        case Refused(reason) => s' == s && outcome == ProposalRefused(reason)
        case Permitted(a) =>
          if !(IsName(c.table) && IsName(c.set4) && IsName(c.set6)) then
            s' == s && outcome == InvalidIdentifier
          else match outcome
               case Reused(k) =>
                 s' == s && k < |s.plans| && Pending(s.plans[k], call.incident, a) && s.plans[k].expiresAt > call.now
               case Created(k) => IsProposed(c, s, s', call, k, a)
               case _ => false
  }

  ghost predicate DecisionMeans(c: Config, s: State, s': State, call: Call, outcome: Outcome)
    requires call.Approve? || call.Reject?
  {
    if call.plan >= |s.plans| then s' == s && outcome == PlanNotFound
    else
      var p := s.plans[call.plan];
      if p.status != Proposed then s' == s && outcome == AlreadyDecided
      else if p.expiresAt <= call.now then s' == s && outcome == Expired
      else if call.Reject? then
        IsDecided(s, s', call.plan, Rejected, call.actor, call.request, call.now) && outcome == Decided(Rejected)
      else if call.second && p.proposer == call.actor then s' == s && outcome == SameOperator
      else
        exists v | VerdictMeans(c, s.entries, Text(p.address, true), v) ::
          match v
          case Refused(reason) =>
            && IsDecided(s, s', call.plan, Rejected, call.actor, call.request, call.now)
            && outcome == NowBlocked(reason)
          case Permitted(_) =>
            IsDecided(s, s', call.plan, Approved, call.actor, call.request, call.now) && outcome == Decided(Approved)
  }

  lemma ProposalIsMeant(c: Config, s: State, call: Call)
    requires call.Propose?
    ensures var (s', outcome) := Effect(c, s, call); ProposalMeans(c, s, s', call, outcome)
  {
    IdentifiersAreNames(c.table);
    IdentifiersAreNames(c.set4);
    IdentifiersAreNames(c.set6);
    if c.ttl >= 1 && call.incident in c.incidents && c.incidents[call.incident].Some? {
      VerdictIsMeant(c, s.entries, c.incidents[call.incident].value);
      assert forall j :: 0 <= j < |s.plans| ==> s.plans[j] in s.plans;
    }
  }

  lemma DecisionIsMeant(c: Config, s: State, call: Call)
    requires call.Approve? || call.Reject?
    ensures var (s', outcome) := Effect(c, s, call); DecisionMeans(c, s, s', call, outcome)
  {
    if call.plan < |s.plans| {
      VerdictIsMeant(c, s.entries, Text(s.plans[call.plan].address, true));
    }
  }

  // ---- The rows, changed in place -----------------------------------------------------------

  class PlanDesk {
    const config: Config
    var plans: seq<Plan>
    var entries: seq<Entry>
    var audit: seq<AuditRow>

    constructor (config: Config)
      ensures this.config == config && Rows() == State([], [], [])
    {
      this.config, plans, entries, audit := config, [], [], [];
    }

    function Rows(): State
      reads this
    {
      State(plans, entries, audit)
    }

    method ProposeIpBlock(actor: nat, incident: nat, request: string, now: int) returns (outcome: Outcome)
      modifies this`plans, this`audit
      ensures (Rows(), outcome) == Effect(config, old(Rows()), Propose(actor, incident, request, now))
      ensures ProposalMeans(config, old(Rows()), Rows(), Propose(actor, incident, request, now), outcome)
    {
      ProposalIsMeant(config, Rows(), Propose(actor, incident, request, now));
      if config.ttl < 1 { return InvalidTtl; }
      if incident !in config.incidents { return IncidentNotFound; }
      var source := config.incidents[incident];
      if source.None? { return NoSourceAddress; }
      var verdict := Classify(config, entries, source.value);
      if verdict.Refused? { return ProposalRefused(verdict.reason); }
      if !ValidIdentifiers(config) { return InvalidIdentifier; }
      var existing := FindPending(plans, incident, verdict.address);
      if existing.Some? && plans[existing.value].expiresAt > now {
        return Reused(existing.value);
      }
      var k := |plans|;
      if existing.Some? {
        k := existing.value;
        plans := plans[k := Refreshed(config, plans[k], Propose(actor, incident, request, now), verdict.address)];
      } else {
        plans := plans + [NewPlan(config, Propose(actor, incident, request, now), verdict.address)];
      }
      audit := audit + [PlanRow(Proposed, k, actor, request, actor)];
      return Created(k);
    }

    method DecidePlan(k: nat, status: Status, actor: nat, request: string, now: int)
      requires k < |plans|
      modifies this`plans, this`audit
      ensures Rows() == Decide(old(Rows()), k, status, actor, request, now)
    {
      plans := plans[k := DecidedPlan(plans[k], status, actor, now)];
      audit := audit + [PlanRow(status, k, actor, request, plans[k].proposer)];
    }

    method ApproveIpBlock(actor: nat, k: nat, request: string, second: bool, now: int) returns (outcome: Outcome)
      modifies this`plans, this`audit
      ensures (Rows(), outcome) == Effect(config, old(Rows()), Approve(actor, k, request, second, now))
      ensures DecisionMeans(config, old(Rows()), Rows(), Approve(actor, k, request, second, now), outcome)
    {
      DecisionIsMeant(config, Rows(), Approve(actor, k, request, second, now));
      if k >= |plans| { return PlanNotFound; }
      if plans[k].status != Proposed { return AlreadyDecided; }
      if plans[k].expiresAt <= now { return Expired; }
      if second && plans[k].proposer == actor { return SameOperator; }
      var verdict := Classify(config, entries, Text(plans[k].address, true));
      if verdict.Refused? {
        DecidePlan(k, Rejected, actor, request, now);
        return NowBlocked(verdict.reason);
      }
      DecidePlan(k, Approved, actor, request, now);
      return Decided(Approved);
    }

    method RejectIpBlock(actor: nat, k: nat, request: string, now: int) returns (outcome: Outcome)
      modifies this`plans, this`audit
      ensures (Rows(), outcome) == Effect(config, old(Rows()), Reject(actor, k, request, now))
      ensures DecisionMeans(config, old(Rows()), Rows(), Reject(actor, k, request, now), outcome)
    {
      DecisionIsMeant(config, Rows(), Reject(actor, k, request, now));
      if k >= |plans| { return PlanNotFound; }
      if plans[k].status != Proposed { return AlreadyDecided; }
      if plans[k].expiresAt <= now { return Expired; }
      DecidePlan(k, Rejected, actor, request, now);
      return Decided(Rejected);
    }

    method AddAllowlistEntry(cidr: Option<Network>, title: string, reason: string, now: int) returns (outcome: Outcome)
      modifies this`entries, this`audit
      ensures (Rows(), outcome) == Effect(config, old(Rows()), AddEntry(cidr, title, reason, now))
      ensures outcome.EntryAdded? <==>
                && cidr.Some? && 1 <= |title| <= 100 && 1 <= |reason| <= 500
                && forall k :: 0 <= k < |old(entries)| && old(entries)[k].cidr == cidr.value ==>
                                 old(entries)[k].revokedAt.Some?
      ensures var n := |old(entries)|;
              if outcome.EntryAdded? then
                && outcome.entry == n && |entries| == n + 1 && entries[..n] == old(entries)
                && entries[n] == Entry(cidr.value, title, reason, now, None)
                && audit == old(audit) + [EntryRow(true, n)]
              else outcome == InvalidEntry && entries == old(entries) && audit == old(audit)
    {
      if cidr.None? || !(1 <= |title| <= 100) || !(1 <= |reason| <= 500) { return InvalidEntry; }
      if ActiveEntry(entries, cidr.value) { return InvalidEntry; }
      outcome := EntryAdded(|entries|);
      audit := audit + [EntryRow(true, |entries|)];
      entries := entries + [Entry(cidr.value, title, reason, now, None)];
    }

    method RevokeAllowlistEntry(k: nat, now: int) returns (outcome: Outcome)
      modifies this`entries, this`audit
      ensures (Rows(), outcome) == Effect(config, old(Rows()), RevokeEntry(k, now))
      ensures outcome == EntryRevoked <==> k < |old(entries)| && old(entries)[k].revokedAt.None?
      ensures outcome == NoSuchEntry <==> k >= |old(entries)|
      ensures if outcome == EntryRevoked then
                && |entries| == |old(entries)| && entries[k] == old(entries)[k].(revokedAt := entries[k].revokedAt)
                && entries[k].revokedAt == Some(now) && audit == old(audit) + [EntryRow(false, k)]
                && forall j :: 0 <= j < |entries| && j != k ==> entries[j] == old(entries)[j]
              else entries == old(entries) && audit == old(audit)
    {
      if k >= |entries| { return NoSuchEntry; }
      if entries[k].revokedAt.Some? { return AlreadyRevoked; }
      entries := entries[k := entries[k].(revokedAt := Some(now))];
      audit := audit + [EntryRow(false, k)];
      return EntryRevoked;
    }
  }

  // ---- Runs ---------------------------------------------------------------------------------

  ghost predicate Run(c: Config, ss: seq<State>, calls: seq<Call>) {
    && |ss| == |calls| + 1 && ss[0] == State([], [], [])
    && forall i {:trigger calls[i]} | 0 <= i < |calls| :: ss[i + 1] == Effect(c, ss[i], calls[i]).0
  }

  // An address that the policy permits can be proposed by one operator and approved by another.
  lemma ApprovalIsReachable(c: Config, incident: nat, a: Address, proposer: nat, decider: nat, now: int)
      returns (ss: seq<State>, calls: seq<Call>)
    requires c.ttl >= 1 && ValidIdentifiers(c) && proposer != decider
    requires incident in c.incidents && c.incidents[incident] == Some(Text(a, true))
    requires !Mapped(a) && !IsNeverBlock(c, a)
    ensures Run(c, ss, calls) && |calls| == 2 && |ss[2].plans| == 1 && ss[2].plans[0].status == Approved
    ensures ss[2].plans[0].address == a && ss[2].plans[0].decider == Some(decider)
  {
    calls := [Propose(proposer, incident, "", now), Approve(decider, 0, "", true, now)];
    var s0 := State([], [], []);
    var s1 := Effect(c, s0, calls[0]).0;
    ss := [s0, s1, Effect(c, s1, calls[1]).0];
  }

  predicate RowOf(row: AuditRow, k: nat) {
    row.PlanRow? && row.plan == k
  }

  predicate WellFormed(c: Config, plan: Plan) {
    && plan.command == BlockCommand(c, plan.address) && ValidIdentifiers(c)
    && (plan.status == Proposed <==> plan.decider.None?) && (plan.status == Proposed <==> plan.decidedAt.None?)
    && plan.expiresAt == plan.proposedAt + c.ttl && c.ttl >= 1
    && !Mapped(plan.address) && !IsNeverBlock(c, plan.address)
    && (plan.status == Approved ==> plan.decidedAt.value < plan.expiresAt)
  }

  // At most one plan awaits a decision for each incident and address.
  predicate OnePending(plans: seq<Plan>) {
    forall i, j | 0 <= i < j < |plans| && plans[i].status == plans[j].status == Proposed ::
      plans[i].incident != plans[j].incident || plans[i].address != plans[j].address
  }

  // The audit rows of a plan are proposals only, ended by one decision exactly when it is decided; the
  // last row names who the plan says acted last.
  predicate LastWord(s: State, k: nat, i: nat)
    requires k < |s.plans|
  {
    && i < |s.audit| && RowOf(s.audit[i], k)
    && (forall j | i < j < |s.audit| :: !RowOf(s.audit[j], k))
    && s.audit[i].action == s.plans[k].status && s.audit[i].proposer == s.plans[k].proposer
    && (if s.plans[k].status == Proposed
        then s.audit[i].actor == s.plans[k].proposer && s.audit[i].request == s.plans[k].request
        else Some(s.audit[i].actor) == s.plans[k].decider)
  }

  ghost predicate Audited(s: State) {
    && (forall i | 0 <= i < |s.audit| && s.audit[i].PlanRow? :: s.audit[i].plan < |s.plans|)
    && (forall i, j | 0 <= i < j < |s.audit| && s.audit[i].PlanRow? && RowOf(s.audit[j], s.audit[i].plan) ::
          s.audit[i].action == Proposed)
    && (forall k | 0 <= k < |s.plans| :: HasLastWord(s, k))
  }

  ghost predicate HasLastWord(s: State, k: nat)
    requires k < |s.plans|
  {
    exists i :: LastWord(s, k, i)
  }

  predicate DistinctEntries(entries: seq<Entry>) {
    forall i, j | 0 <= i < j < |entries| && entries[i].revokedAt == entries[j].revokedAt == None ::
      entries[i].cidr != entries[j].cidr
  }

  ghost predicate Inv(c: Config, s: State) {
    && (forall k | 0 <= k < |s.plans| :: WellFormed(c, s.plans[k]))
    && OnePending(s.plans) && DistinctEntries(s.entries) && Audited(s)
  }

  // One plan is put in place of another or appended, with its audit row.
  lemma WriteKeepsAudited(s: State, k: nat, plan: Plan, row: AuditRow, s': State)
    requires Audited(s) && k <= |s.plans|
    requires s'.plans == (if k < |s.plans| then s.plans[k := plan] else s.plans + [plan]) && s'.audit == s.audit + [row]
    requires k < |s.plans| ==> s.plans[k].status == Proposed
    requires RowOf(row, k) && row.action == plan.status && row.proposer == plan.proposer
    requires if plan.status == Proposed then row.actor == plan.proposer && row.request == plan.request
             else Some(row.actor) == plan.decider
    ensures Audited(s')
  {
    forall j | 0 <= j < |s'.plans|
      ensures HasLastWord(s', j)
    {
      if j == k {
        assert LastWord(s', j, |s.audit|);
      } else {
        assert HasLastWord(s, j);
        var i :| LastWord(s, j, i);
        assert LastWord(s', j, i);
      }
    }
    forall i, j | 0 <= i < j < |s'.audit| && s'.audit[i].PlanRow? && RowOf(s'.audit[j], s'.audit[i].plan)
      ensures s'.audit[i].action == Proposed
    {
      if j == |s.audit| {
        assert HasLastWord(s, k);
        var w :| LastWord(s, k, w);
        assert i <= w;
      }
    }
  }

  lemma OtherRowsKeepAudited(s: State, row: AuditRow, s': State)
    requires Audited(s) && row.EntryRow? && s'.plans == s.plans && s'.audit == s.audit + [row]
    ensures Audited(s')
  {
    forall j | 0 <= j < |s'.plans|
      ensures HasLastWord(s', j)
    {
      assert HasLastWord(s, j);
      var i :| LastWord(s, j, i);
      assert LastWord(s', j, i);
    }
  }

  lemma ProposalKeepsInv(c: Config, s: State, call: Call, a: Address)
    requires Inv(c, s) && call.Propose? && c.ttl >= 1 && ValidIdentifiers(c) && !Mapped(a) && !IsNeverBlock(c, a)
    ensures Inv(c, Proposal(c, s, call, a).0)
  {
    var (s', outcome) := Proposal(c, s, call, a);
    if outcome.Created? {
      var k := outcome.plan;
      assert forall m | 0 <= m < |s.plans| :: s.plans[m] in s.plans;
      WriteKeepsAudited(s, k, s'.plans[k], s'.audit[|s.audit|], s');
    }
  }

  lemma DecisionKeepsInv(c: Config, s: State, k: nat, status: Status, actor: nat, request: string, now: int)
    requires Inv(c, s) && k < |s.plans| && s.plans[k].status == Proposed && now < s.plans[k].expiresAt
    requires status != Proposed
    ensures Inv(c, Decide(s, k, status, actor, request, now))
  {
    var s' := Decide(s, k, status, actor, request, now);
    WriteKeepsAudited(s, k, s'.plans[k], s'.audit[|s.audit|], s');
  }

  lemma EntryKeepsInv(c: Config, s: State, call: Call)
    requires Inv(c, s) && (call.AddEntry? || call.RevokeEntry?)
    ensures Inv(c, Effect(c, s, call).0)
  {
    var (s', outcome) := Effect(c, s, call);
    if s'.audit != s.audit {
      assert forall m | 0 <= m < |s.entries| :: s.entries[m] in s.entries;
      OtherRowsKeepAudited(s, s'.audit[|s.audit|], s');
    }
  }

  lemma EffectKeepsInv(c: Config, s: State, call: Call)
    requires Inv(c, s)
    ensures Inv(c, Effect(c, s, call).0)
  {
    var s' := Effect(c, s, call).0;
    match call
    case Propose(_, incident, _, _) =>
      if s' != s {
        ProposalKeepsInv(c, s, call, c.incidents[incident].value.address);
      }
    case Approve(actor, k, request, _, now) =>
      if s' != s {
        DecisionKeepsInv(c, s, k, Approved, actor, request, now);
        DecisionKeepsInv(c, s, k, Rejected, actor, request, now);
      }
    case Reject(actor, k, request, now) =>
      if s' != s {
        DecisionKeepsInv(c, s, k, Rejected, actor, request, now);
      }
    case AddEntry(_, _, _, _) => EntryKeepsInv(c, s, call);
    case RevokeEntry(_, _) => EntryKeepsInv(c, s, call);
  }

  lemma {:induction false} InvariantAt(c: Config, ss: seq<State>, calls: seq<Call>, i: nat)
    requires Run(c, ss, calls) && i < |ss|
    ensures Inv(c, ss[i])
  {
    if i > 0 {
      InvariantAt(c, ss, calls, i - 1);
      EffectKeepsInv(c, ss[i - 1], calls[i - 1]);
    }
  }

  // The step that decided a plan, as the code saw it: still pending, not expired, and, for an approval,
  // outside every never-block network and off the allowlist of that moment.
  predicate DecidedBy(c: Config, s: State, call: Call, k: nat, plan: Plan) {
    && k < |s.plans| && s.plans[k].status == Proposed
    && (call.Approve? || call.Reject?) && call.plan == k && call.now < s.plans[k].expiresAt
    && plan == DecidedPlan(s.plans[k], plan.status, call.actor, call.now)
    && (call.Reject? ==> plan.status == Rejected)
    && (call.Approve? && call.second ==> plan.proposer != call.actor)
    && (call.Approve? ==>
          (plan.status == Approved <==>
           Classify(c, s.entries, Text(plan.address, true)) == Permitted(plan.address)))
  }

  lemma PlanStep(c: Config, s: State, call: Call, k: nat)
    requires k < |s.plans|
    ensures |Effect(c, s, call).0.plans| >= |s.plans|
    ensures var plan' := Effect(c, s, call).0.plans[k];
            if s.plans[k].status != Proposed then plan' == s.plans[k]
            else plan'.status == Proposed || DecidedBy(c, s, call, k, plan')
    ensures Effect(c, s, call).0.plans[k].incident == s.plans[k].incident
    ensures Effect(c, s, call).0.plans[k].address == s.plans[k].address
  {
  }

  lemma {:induction false} DecisionsAreFinal(c: Config, ss: seq<State>, calls: seq<Call>, i: nat, j: nat, k: nat)
    requires Run(c, ss, calls) && i <= j < |ss| && k < |ss[i].plans|
    ensures k < |ss[j].plans|
    ensures ss[i].plans[k].status != Proposed ==> ss[j].plans[k] == ss[i].plans[k]
    ensures ss[j].plans[k].incident == ss[i].plans[k].incident && ss[j].plans[k].address == ss[i].plans[k].address
    decreases j - i
  {
    if i < j {
      PlanStep(c, ss[i], calls[i], k);
      DecisionsAreFinal(c, ss, calls, i + 1, j, k);
    }
  }

  lemma {:induction false} EveryDecisionHasItsStep(c: Config, ss: seq<State>, calls: seq<Call>, j: nat, k: nat)
      returns (i: nat)
    requires Run(c, ss, calls) && j < |ss| && k < |ss[j].plans| && ss[j].plans[k].status != Proposed
    ensures i < j && k < |ss[i].plans| && DecidedBy(c, ss[i], calls[i], k, ss[j].plans[k])
    ensures forall m | i < m <= j :: k < |ss[m].plans| && ss[m].plans[k] == ss[j].plans[k]
  {
    i := j - 1;
    if k < |ss[i].plans| {
      PlanStep(c, ss[i], calls[i], k);
      if ss[i].plans[k].status != Proposed {
        i := EveryDecisionHasItsStep(c, ss, calls, j - 1, k);
      }
    }
  }

  // What an approved plan says about the past.
  lemma ApprovedPlansWerePermitted(c: Config, ss: seq<State>, calls: seq<Call>, j: nat, k: nat) returns (i: nat)
    requires Run(c, ss, calls) && j < |ss| && k < |ss[j].plans| && ss[j].plans[k].status == Approved
    ensures i < j && calls[i].Approve? && calls[i].plan == k && k < |ss[i].plans| && ss[i].plans[k].status == Proposed
    ensures var plan := ss[j].plans[k];
            && plan.decider == Some(calls[i].actor) && plan.decidedAt == Some(calls[i].now)
            && calls[i].now < plan.expiresAt
            && (forall n | n in NEVER_BLOCK :: !Within(plan.address, n))
            && (forall e | e in ss[i].entries && e.revokedAt.None? :: !Within(plan.address, e.cidr))
            && plan.command == BlockCommand(c, plan.address)
            && NftIdentifier(plan.command.table) && NftIdentifier(plan.command.elements)
            && (calls[i].second ==> plan.decider != Some(plan.proposer))
  {
    i := EveryDecisionHasItsStep(c, ss, calls, j, k);
    InvariantAt(c, ss, calls, j);
  }

  // Decided plans and decision rows match one to one, and each decision row says who decided and what.
  lemma DecisionRowsMatchDecidedPlans(c: Config, ss: seq<State>, calls: seq<Call>, j: nat, k: nat)
    requires Run(c, ss, calls) && j < |ss| && k < |ss[j].plans|
    ensures ss[j].plans[k].status != Proposed <==>
            exists i | 0 <= i < |ss[j].audit| :: RowOf(ss[j].audit[i], k) && ss[j].audit[i].action != Proposed
    ensures forall i, m | 0 <= i < |ss[j].audit| && 0 <= m < |ss[j].audit| && RowOf(ss[j].audit[i], k)
                          && RowOf(ss[j].audit[m], k) && ss[j].audit[i].action != Proposed
                              && ss[j].audit[m].action != Proposed ::
              i == m
    ensures forall i | 0 <= i < |ss[j].audit| && RowOf(ss[j].audit[i], k) && ss[j].audit[i].action != Proposed ::
              && ss[j].audit[i].action == ss[j].plans[k].status && Some(ss[j].audit[i].actor) == ss[j].plans[k].decider
              && ss[j].audit[i].proposer == ss[j].plans[k].proposer
  {
    InvariantAt(c, ss, calls, j);
    assert HasLastWord(ss[j], k);
    var w :| LastWord(ss[j], k, w);
    forall i | 0 <= i < |ss[j].audit| && RowOf(ss[j].audit[i], k)
      ensures i <= w && (ss[j].audit[i].action != Proposed ==> i == w)
    {
    }
  }

  // Once a plan has been proposed, only the allowlist can make its approval fail the policy.
  lemma OnlyTheAllowlistBlocksAnApproval(c: Config, ss: seq<State>, calls: seq<Call>, j: nat)
    requires Run(c, ss, calls) && j < |calls| && calls[j].Approve?
    requires Effect(c, ss[j], calls[j]).1.NowBlocked?
    ensures Effect(c, ss[j], calls[j]).1.reason == Allowlisted
  {
    InvariantAt(c, ss, calls, j);
    assert WellFormed(c, ss[j].plans[calls[j].plan]);
  }

  // A proposal that is not refused leaves exactly one live plan for the incident's address.
  lemma ProposalLeavesOneLivePlan(c: Config, ss: seq<State>, calls: seq<Call>, j: nat, k: nat)
    requires Run(c, ss, calls) && j < |calls| && calls[j].Propose?
    requires Effect(c, ss[j], calls[j]).1 == Created(k) || Effect(c, ss[j], calls[j]).1 == Reused(k)
    ensures k < |ss[j + 1].plans| && c.incidents[calls[j].incident].Some?
    ensures c.incidents[calls[j].incident].value == Text(ss[j + 1].plans[k].address, true)
    ensures ss[j + 1].plans[k].expiresAt > calls[j].now
    ensures var plans := ss[j + 1].plans;
            forall m | 0 <= m < |plans| :: Pending(plans[m], calls[j].incident, plans[k].address) <==> m == k
    ensures Effect(c, ss[j], calls[j]).1 == Reused(k) ==> ss[j + 1] == ss[j]
  {
    InvariantAt(c, ss, calls, j + 1);
  }

  // Membership of a network, written with a division, is one aligned range of addresses.
  lemma WithinIsARange(a: Address, n: Network)
    requires a.V4? == n.Net4?
    ensures var low := n.base - n.base % Size(n); Within(a, n) <==> low <= a.bits < low + Size(n)
  {
    SameQuotient(a.bits, n.base, Size(n));
  }

  lemma SameQuotient(x: nat, base: nat, s: nat)
    requires s > 0
    ensures x / s == base / s <==> base - base % s <= x < base - base % s + s
  {
    var (q, p) := (base / s, x / s);
    assert base - base % s == q * s && x == p * s + x % s;
    if p < q {
      assert (p + 1) * s <= q * s;
    } else if p > q {
      assert (q + 1) * s <= p * s;
    }
  }
}

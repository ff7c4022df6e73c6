/**
  The interlocked singly linked list (libuzi/interlocked.c) with 32-bit pointers: the header is
  one 64-bit word holding Next, Depth and Sequence, and nodes stay allocated.

  Copying the header into a local takes two 32-bit loads in either order, so the copy may be torn.
  Each load, each access to a node's Next and each compare-and-swap is one step. Clients own the
  nodes they have popped or flushed (or never pushed); they may rewrite Next and hand nodes on.
 */
module SList {
  import opened Sequences

  const WRAP: nat := 65536

  datatype Link = Null | At(node: nat)

  datatype Header = Header(next: Link, depth: nat, sequence: nat)

  datatype Op = Push(node: nat) | Pop | Flush

  datatype PC =
    | Idle
    | FlushQuery
    | LoadHeader(op: Op)
    | HaveNext(op: Op, next: Link)
    | HaveTag(op: Op, depth: nat, sequence: nat)
    | PushLink(node: nat, copy: Header)
    | PushCas(node: nat, copy: Header)
    | PopNext(copy: Header)
    | PopCas(copy: Header, succ: Link)
    | FlushCas(copy: Header)

  /** The memory the code sees: the header word, every node's Next field, and where each thread is. */
  datatype Memory = Memory(header: Header, next: seq<Link>, pcs: seq<PC>)

  datatype Action =
    | CallPush(node: nat) | CallPop | CallFlush
    | ClientWrite(node: nat, link: Link) | ClientGive(node: nat, to: nat)
    | Continue(nextWordFirst: bool)

  /** The moment an operation takes effect, with the pointer the code returns for it. */
  datatype Event = Pushed(node: nat, ret: Link) | Popped(ret: Link) | Flushed(ret: Link) | FlushSkipped

  datatype Outcome = Blocked | Quiet(m: Memory) | Emit(m: Memory, e: Event)

  function Move(m: Memory, t: nat, pc: PC): Memory
    requires t < |m.pcs|
  {
    m.(pcs := m.pcs[t := pc])
  }

  /** After both halves of the header are loaded. */
  function Loaded(op: Op, copy: Header): PC {
    match op
    case Push(node) => PushLink(node, copy)
    case Pop => if copy.next.Null? then Idle else PopNext(copy)
    case Flush => FlushCas(copy)
  }

  /** A pop that loads a null Next word is bound to return NULL: it takes effect at that load. */
  function AfterNextLoad(m: Memory, op: Op): Outcome {
    if op.Pop? && m.header.next.Null? then Emit(m, Popped(Null)) else Quiet(m)
  }

  /** The next step of thread t. */
  function Exec(m: Memory, t: nat, a: Action): Outcome
    requires t < |m.pcs|
  {
    if m.pcs[t].Idle? then
      match a
      case CallPush(node) => Quiet(Move(m, t, LoadHeader(Push(node))))
      case CallPop => Quiet(Move(m, t, LoadHeader(Pop)))
      case CallFlush => Quiet(Move(m, t, FlushQuery))
      case ClientWrite(node, link) =>
        if node < |m.next| then Quiet(m.(next := m.next[node := link])) else Blocked
      case ClientGive(_, _) => Quiet(m)
      case Continue(_) => Blocked
    else if !a.Continue? then Blocked
    else
      match m.pcs[t]
      case FlushQuery =>
        if m.header.depth == 0 then Emit(Move(m, t, Idle), FlushSkipped)
        else Quiet(Move(m, t, LoadHeader(Flush)))
      case LoadHeader(op) =>
        if a.nextWordFirst
        then AfterNextLoad(Move(m, t, HaveNext(op, m.header.next)), op)
        else Quiet(Move(m, t, HaveTag(op, m.header.depth, m.header.sequence)))
      case HaveNext(op, next) =>
        Quiet(Move(m, t, Loaded(op, Header(next, m.header.depth, m.header.sequence))))
      case HaveTag(op, depth, sequence) =>
        AfterNextLoad(Move(m, t, Loaded(op, Header(m.header.next, depth, sequence))), op)
      case PushLink(node, copy) =>
        if node >= |m.next| then Blocked
        else Quiet(Move(m.(next := m.next[node := copy.next]), t, PushCas(node, copy)))
      case PushCas(node, copy) =>
        if m.header == copy
        then Emit(Move(m.(header := Header(At(node), (copy.depth + 1) % WRAP, (copy.sequence + 1) % WRAP)), t, Idle),
                  Pushed(node, copy.next))
        else Quiet(Move(m, t, LoadHeader(Push(node))))
      case PopNext(copy) =>
        if copy.next.Null? || copy.next.node >= |m.next| then Blocked
        else Quiet(Move(m, t, PopCas(copy, m.next[copy.next.node])))
      case PopCas(copy, succ) =>
        if m.header == copy
        then Emit(Move(m.(header := Header(succ, (copy.depth + WRAP - 1) % WRAP, (copy.sequence + 1) % WRAP)), t, Idle),
                  Popped(copy.next))
        else Quiet(Move(m, t, LoadHeader(Pop)))
      case FlushCas(copy) =>
        if m.header == copy
        then Emit(Move(m.(header := Header(Null, 0, (copy.sequence + 1) % WRAP)), t, Idle), Flushed(copy.next))
        else Quiet(Move(m, t, LoadHeader(Flush)))
  }

  // ---- the abstract stack ----

  function LinkAt(st: seq<nat>, i: nat): Link {
    if i < |st| then At(st[i]) else Null
  }

  /** The stack after one event. */
  function Apply(st: seq<nat>, e: Event): seq<nat> {
    match e
    case Pushed(node, _) => [node] + st
    case Popped(_) => if st == [] then [] else st[1..]
    case Flushed(_) => []
    case FlushSkipped => st
  }

  /**
    What a sequential stack answers: a push returns the former top, a pop the top or NULL, a flush
    the top of the whole chain. A flush that only looks at Depth gives up on any multiple of 65536.
   */
  predicate LegalEvent(st: seq<nat>, e: Event) {
    match e
    case Pushed(node, ret) => node !in st && ret == LinkAt(st, 0)
    case Popped(ret) => ret == LinkAt(st, 0)
    case Flushed(ret) => ret == LinkAt(st, 0)
    case FlushSkipped => |st| % WRAP == 0
  }

  function Replay(history: seq<Event>): seq<nat> {
    if history == [] then []
    else Apply(Replay(history[..|history| - 1]), history[|history| - 1])
  }

  predicate Legal(history: seq<Event>) {
    history == [] ||
    (var before := history[..|history| - 1];
     Legal(before) && LegalEvent(Replay(before), history[|history| - 1]))
  }

  /** Whether the event rewrote the header. */
  function Update(e: Event): nat {
    match e
    case Popped(ret) => if ret.Null? then 0 else 1
    case FlushSkipped => 0
    case _ => 1
  }

  /** The number of header updates so far. */
  function Version(history: seq<Event>): nat {
    if history == [] then 0
    else Version(history[..|history| - 1]) + Update(history[|history| - 1])
  }

  lemma Append(history: seq<Event>, e: Event)
    ensures Replay(history + [e]) == Apply(Replay(history), e)
    ensures Legal(history + [e]) <==> Legal(history) && LegalEvent(Replay(history), e)
    ensures Version(history + [e]) == Version(history) + Update(e)
  {
    assert (history + [e])[..|history|] == history;
  }

  // ---- runs ----

  datatype Place = Listed | OwnedBy(t: nat)

  /**
    The memory together with what only the argument needs: the events so far, who owns each node,
    and the header version at which each thread last loaded Depth and Sequence.
   */
  datatype State = State(m: Memory, history: seq<Event>, places: seq<Place>, seen: seq<nat>)

  /** What the client must own before it makes the call. */
  ghost predicate Allowed(s: State, t: nat, a: Action) {
    match a
    case CallPush(node) => node < |s.places| && s.places[node] == OwnedBy(t)
    case ClientWrite(node, _) => node < |s.places| && s.places[node] == OwnedBy(t)
    case ClientGive(node, to) => node < |s.places| && s.places[node] == OwnedBy(t) && to < |s.m.pcs|
    case _ => true
  }

  function PlacesAfter(places: seq<Place>, t: nat, e: Event): seq<Place> {
    match e
    case Pushed(node, _) => if node < |places| then places[node := Listed] else places
    case Popped(At(node)) => if node < |places| then places[node := OwnedBy(t)] else places
    case Flushed(_) => seq(|places|, n requires 0 <= n < |places| => if places[n].Listed? then OwnedBy(t) else places[n])
    case _ => places
  }

  /** This step loads Depth and Sequence. */
  predicate LoadsTag(pc: PC, a: Action) {
    a.Continue? && (pc.HaveNext? || (pc.LoadHeader? && !a.nextWordFirst))
  }

  ghost predicate Step(s: State, t: nat, a: Action, s': State) {
    && t < |s.m.pcs| == |s.seen|
    && Allowed(s, t, a)
    && var seen := if LoadsTag(s.m.pcs[t], a) then s.seen[t := Version(s.history)] else s.seen;
    match Exec(s.m, t, a)
    case Blocked => false
    case Quiet(m) =>
      s' == State(m, s.history,
                  if a.ClientGive? && s.m.pcs[t].Idle? then s.places[a.node := OwnedBy(a.to)] else s.places, seen)
    case Emit(m, e) => s' == State(m, s.history + [e], PlacesAfter(s.places, t, e), seen)
  }

  predicate AtCas(pc: PC) { pc.PushCas? || pc.PopCas? || pc.FlushCas? }

  /**
    If the thread is about to swap successfully in a pop, there have been fewer than 65536 header updates
    since it loaded Sequence. Pushes and flushes may be of any age.
   */
  ghost predicate Timely(s: State, t: nat) {
    && t < |s.m.pcs| == |s.seen|
    && (s.m.pcs[t].PopCas? && s.m.header == s.m.pcs[t].copy ==> Version(s.history) - s.seen[t] < WRAP)
  }

  ghost predicate TimelyNext(s: State, s': State) {
    exists t: nat, a: Action :: Step(s, t, a, s') && Timely(s, t)
  }

  /** InitializeSListHead; all nodes belong to clients. */
  ghost predicate Init(s: State) {
    && s.m.header == Header(Null, 0, 0)
    && s.history == []
    && |s.places| == |s.m.next|
    && |s.seen| == |s.m.pcs|
    && (forall n | 0 <= n < |s.places| :: s.places[n].OwnedBy?)
    && (forall t | 0 <= t < |s.m.pcs| :: s.m.pcs[t].Idle? && s.seen[t] == 0)
  }

  ghost predicate TimelyAt(run: seq<State>, i: nat)
    requires 0 < i < |run|
  {
    TimelyNext(run[i - 1], run[i])
  }

  ghost predicate IsTimelyRun(run: seq<State>) {
    && run != []
    && Init(run[0])
    && forall i | 0 < i < |run| :: TimelyAt(run, i)
  }

  // ---- invariant ----

  /** A header copy whose tag was loaded at version `seen`, looked at while the version is `now`. */
  ghost predicate TagOk(m: Memory, depth: nat, sequence: nat, seen: nat, now: nat) {
    && seen <= now
    && sequence == seen % WRAP
    && (seen == now ==> depth == m.header.depth)
  }

  ghost predicate OpOk(s: State, t: nat, op: Op) {
    op.Push? ==> op.node < |s.places| && s.places[op.node] == OwnedBy(t)
  }

  ghost predicate LinkOk(m: Memory, l: Link) {
    l.At? ==> l.node < |m.next|
  }

  ghost predicate ThreadOk(s: State, t: nat)
    requires t < |s.m.pcs| == |s.seen|
  {
    var m, now, seen := s.m, Version(s.history), s.seen[t];
    match m.pcs[t]
    case Idle => true
    case FlushQuery => true
    case LoadHeader(op) => OpOk(s, t, op)
    case HaveNext(op, next) => OpOk(s, t, op) && LinkOk(m, next)
    case HaveTag(op, depth, sequence) => OpOk(s, t, op) && TagOk(m, depth, sequence, seen, now)
    case PushLink(node, copy) => OpOk(s, t, Push(node)) && TagOk(m, copy.depth, copy.sequence, seen, now)
    case PushCas(node, copy) =>
      && OpOk(s, t, Push(node)) && TagOk(m, copy.depth, copy.sequence, seen, now)
      && node < |m.next| && m.next[node] == copy.next
    case PopNext(copy) =>
      && copy.next.At? && LinkOk(m, copy.next) && TagOk(m, copy.depth, copy.sequence, seen, now)
    case PopCas(copy, succ) =>
      && copy.next.At? && LinkOk(m, copy.next) && TagOk(m, copy.depth, copy.sequence, seen, now)
      && (seen == now && copy.next == m.header.next ==> succ == m.next[copy.next.node])
    case FlushCas(copy) => TagOk(m, copy.depth, copy.sequence, seen, now)
  }

  /** Following Next from `first` visits exactly the stack, and exactly its nodes are listed. */
  ghost predicate Links(first: Link, next: seq<Link>, places: seq<Place>, st: seq<nat>) {
    && |places| == |next|
    && first == LinkAt(st, 0)
    && (forall i | 0 <= i < |st| :: st[i] < |next| && next[st[i]] == LinkAt(st, i + 1))
    && Distinct(st)
    && (forall n | 0 <= n < |places| :: places[n].Listed? <==> n in st)
  }

  /** Depth and Sequence are 16 bits wide. */
  ghost predicate Counters(header: Header, length: nat, version: nat) {
    header.depth == length % WRAP && header.sequence == version % WRAP
  }

  /** The header word and the nodes' Next fields represent the stack `st` after `version` updates. */
  ghost predicate Represents(m: Memory, places: seq<Place>, st: seq<nat>, version: nat) {
    Links(m.header.next, m.next, places, st) && Counters(m.header, |st|, version)
  }

  /** What holds of the list itself. */
  ghost predicate ListOk(s: State) {
    Legal(s.history) && Represents(s.m, s.places, Replay(s.history), Version(s.history))
  }

  ghost predicate Inv(s: State) {
    && |s.seen| == |s.m.pcs|
    && ListOk(s)
    && forall t | 0 <= t < |s.m.pcs| :: ThreadOk(s, t)
  }

  /** A compare-and-swap that succeeds in time happens at the very version its tag was loaded at. */
  lemma CasMeansUnchanged(seen: nat, now: nat)
    requires seen <= now < seen + WRAP && seen % WRAP == now % WRAP
    ensures seen == now
  {
  }

  lemma CountersStep(header: Header, length: nat, version: nat)
    requires Counters(header, length, version)
    ensures (header.sequence + 1) % WRAP == (version + 1) % WRAP
    ensures (header.depth + 1) % WRAP == (length + 1) % WRAP
    ensures length > 0 ==> (header.depth + WRAP - 1) % WRAP == (length - 1) % WRAP
  {
  }

  /** Writing the Next field of a node that is not listed leaves the represented stack alone. */
  lemma WriteKeeps(first: Link, next: seq<Link>, places: seq<Place>, st: seq<nat>, node: nat, link: Link)
    requires Links(first, next, places, st)
    requires node < |next| && !places[node].Listed?
    ensures Links(first, next[node := link], places, st)
  {
    assert node !in st;
  }

  lemma PushKeeps(first: Link, next: seq<Link>, places: seq<Place>, st: seq<nat>, node: nat)
    requires Links(first, next, places, st)
    requires node < |next| && !places[node].Listed? && next[node] == first
    ensures node !in st
    ensures Links(At(node), next, places[node := Listed], [node] + st)
  {
    var st' := [node] + st;
    ConsDistinct(node, st);
    forall i | 0 <= i < |st'| ensures st'[i] < |next| && next[st'[i]] == LinkAt(st', i + 1) {
      if i > 0 { assert st'[i] == st[i - 1] && LinkAt(st', i + 1) == LinkAt(st, i); }
    }
    assert forall n :: n in st' <==> n == node || n in st;
  }

  lemma PopKeeps(first: Link, next: seq<Link>, places: seq<Place>, st: seq<nat>, t: nat)
    requires Links(first, next, places, st)
    requires first.At?
    ensures st != [] && st[0] == first.node < |next|
    ensures Links(next[first.node], next, places[first.node := OwnedBy(t)], st[1..])
  {
    var st' := st[1..];
    forall i | 0 <= i < |st'| ensures st'[i] < |next| && next[st'[i]] == LinkAt(st', i + 1) {
      assert st'[i] == st[i + 1] && LinkAt(st', i + 1) == LinkAt(st, i + 2);
    }
    assert st == [st[0]] + st';
    assert forall n :: n in st <==> n == st[0] || n in st';
    TailDistinct(st);
  }

  lemma FlushKeeps(first: Link, next: seq<Link>, places: seq<Place>, st: seq<nat>, t: nat, e: Event)
    requires Links(first, next, places, st) && e.Flushed?
    ensures Links(Null, next, PlacesAfter(places, t, e), [])
  {
  }

  /** The tag copied by a thread whose swap succeeds in time is the current version. */
  lemma CasInTime(s: State, t: nat, copy: Header)
    requires ListOk(s) && t < |s.m.pcs| == |s.seen| && ThreadOk(s, t) && Timely(s, t)
    requires s.m.pcs[t].PopCas? && s.m.pcs[t].copy == copy == s.m.header
    ensures s.seen[t] == Version(s.history)
  {
    CasMeansUnchanged(s.seen[t], Version(s.history));
  }

  lemma PushCasKeeps(s: State, t: nat, node: nat, copy: Header)
    requires ListOk(s) && t < |s.m.pcs| == |s.seen| && ThreadOk(s, t) && s.m.pcs[t] == PushCas(node, copy) && s.m.header == copy
    ensures node < |s.places| && LegalEvent(Replay(s.history), Pushed(node, copy.next))
    ensures var header := Header(At(node), (copy.depth + 1) % WRAP, (copy.sequence + 1) % WRAP);
            && Links(header.next, s.m.next, s.places[node := Listed], [node] + Replay(s.history))
            && Counters(header, |Replay(s.history)| + 1, Version(s.history) + 1)
  {
    PushKeeps(s.m.header.next, s.m.next, s.places, Replay(s.history), node);
    CountersStep(s.m.header, |Replay(s.history)|, Version(s.history));
  }

  lemma PopCasKeeps(s: State, t: nat, copy: Header, succ: Link)
    requires ListOk(s) && t < |s.m.pcs| == |s.seen| && ThreadOk(s, t) && s.m.pcs[t] == PopCas(copy, succ) && s.m.header == copy
    requires s.seen[t] == Version(s.history)
    ensures copy.next.At? && copy.next.node < |s.places| && LegalEvent(Replay(s.history), Popped(copy.next))
    ensures Replay(s.history) != []
    ensures var header := Header(succ, (copy.depth + WRAP - 1) % WRAP, (copy.sequence + 1) % WRAP);
            && Links(header.next, s.m.next, s.places[copy.next.node := OwnedBy(t)], Replay(s.history)[1..])
            && Counters(header, |Replay(s.history)| - 1, Version(s.history) + 1)
  {
    PopKeeps(s.m.header.next, s.m.next, s.places, Replay(s.history), t);
    CountersStep(s.m.header, |Replay(s.history)|, Version(s.history));
  }

  lemma FlushCasKeeps(s: State, t: nat, copy: Header)
    requires ListOk(s) && t < |s.m.pcs| && s.m.pcs[t] == FlushCas(copy) && s.m.header == copy
    ensures LegalEvent(Replay(s.history), Flushed(copy.next))
    ensures var header := Header(Null, 0, (copy.sequence + 1) % WRAP);
            && Links(header.next, s.m.next, PlacesAfter(s.places, t, Flushed(copy.next)), [])
            && Counters(header, 0, Version(s.history) + 1)
  {
    FlushKeeps(s.m.header.next, s.m.next, s.places, Replay(s.history), t, Flushed(copy.next));
    CountersStep(s.m.header, |Replay(s.history)|, Version(s.history));
  }

  /** What a step that completes an operation leaves behind. */
  lemma EmitShape(s: State, t: nat, a: Action, s': State, e: Event)
    requires Step(s, t, a, s') && Exec(s.m, t, a).Emit? && e == Exec(s.m, t, a).e
    ensures s'.m == Exec(s.m, t, a).m && s'.m.next == s.m.next && s'.places == PlacesAfter(s.places, t, e)
    ensures Replay(s'.history) == Apply(Replay(s.history), e)
    ensures Version(s'.history) == Version(s.history) + Update(e)
    ensures Legal(s'.history) <==> Legal(s.history) && LegalEvent(Replay(s.history), e)
  {
    Append(s.history, e);
  }

  lemma EmitPush(s: State, t: nat, a: Action, s': State)
    requires ListOk(s) && Step(s, t, a, s') && ThreadOk(s, t) && Exec(s.m, t, a).Emit? && s.m.pcs[t].PushCas?
    ensures ListOk(s')
  {
    var PushCas(node, copy) := s.m.pcs[t];
    EmitShape(s, t, a, s', Pushed(node, copy.next));
    PushCasKeeps(s, t, node, copy);
  }

  lemma EmitPop(s: State, t: nat, a: Action, s': State)
    requires ListOk(s) && Step(s, t, a, s') && ThreadOk(s, t) && Timely(s, t) && Exec(s.m, t, a).Emit? && s.m.pcs[t].PopCas?
    ensures ListOk(s')
  {
    var PopCas(copy, succ) := s.m.pcs[t];
    EmitShape(s, t, a, s', Popped(copy.next));
    CasInTime(s, t, copy);
    PopCasKeeps(s, t, copy, succ);
  }

  lemma EmitFlush(s: State, t: nat, a: Action, s': State)
    requires ListOk(s) && Step(s, t, a, s') && Exec(s.m, t, a).Emit? && s.m.pcs[t].FlushCas?
    ensures ListOk(s')
  {
    var FlushCas(copy) := s.m.pcs[t];
    EmitShape(s, t, a, s', Flushed(copy.next));
    FlushCasKeeps(s, t, copy);
  }

  lemma NothingKeeps(header: Header, next: seq<Link>, places: seq<Place>, st: seq<nat>, version: nat, t: nat, e: Event)
    requires Links(header.next, next, places, st) && Counters(header, |st|, version)
    requires (e == Popped(Null) && header.next.Null?) || (e == FlushSkipped && header.depth == 0)
    ensures LegalEvent(st, e) && Apply(st, e) == st && Update(e) == 0 && PlacesAfter(places, t, e) == places
  {
  }

  lemma EmitsNothing(m: Memory, t: nat, a: Action)
    requires t < |m.pcs| && Exec(m, t, a).Emit? && !AtCas(m.pcs[t])
    ensures var m', e := Exec(m, t, a).m, Exec(m, t, a).e;
            && m'.header == m.header && m'.next == m.next
            && ((e == Popped(Null) && m.header.next.Null?) || (e == FlushSkipped && m.header.depth == 0))
  {
  }

  /** A pop that finds nothing, or a flush that gives up, takes effect at a load and changes nothing. */
  lemma EmitNothing(s: State, t: nat, a: Action, s': State)
    requires ListOk(s) && Step(s, t, a, s') && Exec(s.m, t, a).Emit? && !AtCas(s.m.pcs[t])
    ensures ListOk(s')
  {
    var e := Exec(s.m, t, a).e;
    EmitShape(s, t, a, s', e);
    EmitsNothing(s.m, t, a);
    NothingKeeps(s.m.header, s.m.next, s.places, Replay(s.history), Version(s.history), t, e);
  }

  /** A step that completes an operation is that operation on the stack. */
  lemma EmitKeepsShared(s: State, t: nat, a: Action, s': State)
    requires ListOk(s) && Step(s, t, a, s') && Timely(s, t) && ThreadOk(s, t)
    requires Exec(s.m, t, a).Emit?
    ensures ListOk(s')
  {
    match s.m.pcs[t]
    case PushCas(_, _) => EmitPush(s, t, a, s');
    case PopCas(_, _) => EmitPop(s, t, a, s');
    case FlushCas(_) => EmitFlush(s, t, a, s');
    case _ => EmitNothing(s, t, a, s');
  }

  lemma QuietKeepsShared(s: State, t: nat, a: Action, s': State)
    requires Inv(s) && Step(s, t, a, s')
    requires Exec(s.m, t, a).Quiet?
    ensures s'.history == s.history && s'.m.header == s.m.header
    ensures Represents(s'.m, s'.places, Replay(s.history), Version(s.history))
  {
    assert ThreadOk(s, t);
    var m, st := s.m, Replay(s.history);
    if m.pcs[t].Idle? && a.ClientWrite? {
      WriteKeeps(m.header.next, m.next, s.places, st, a.node, a.link);
    } else if m.pcs[t].PushLink? {
      WriteKeeps(m.header.next, m.next, s.places, st, m.pcs[t].node, m.pcs[t].copy.next);
    }
  }

  lemma LoadKeepsSelf(s: State, t: nat, a: Action, s': State)
    requires Inv(s) && Step(s, t, a, s')
    requires |s'.seen| == |s'.m.pcs| == |s.m.pcs| && |s'.places| == |s'.m.next|
    requires Represents(s'.m, s'.places, Replay(s'.history), Version(s'.history))
    requires Version(s'.history) == Version(s.history)
    requires s.m.pcs[t].LoadHeader? || s.m.pcs[t].HaveNext? || s.m.pcs[t].HaveTag?
    ensures ThreadOk(s', t)
  {
    assert ThreadOk(s, t);
  }

  /** The stepping thread's own assertion. */
  lemma StepKeepsSelf(s: State, t: nat, a: Action, s': State)
    requires Inv(s) && Step(s, t, a, s') && Timely(s, t)
    requires |s'.seen| == |s'.m.pcs| == |s.m.pcs| && |s'.places| == |s'.m.next|
    requires Represents(s'.m, s'.places, Replay(s'.history), Version(s'.history))
    ensures ThreadOk(s', t)
  {
    assert ThreadOk(s, t);
    if s.m.pcs[t].LoadHeader? || s.m.pcs[t].HaveNext? || s.m.pcs[t].HaveTag? {
      if Exec(s.m, t, a).Emit? { Append(s.history, Exec(s.m, t, a).e); }
      LoadKeepsSelf(s, t, a, s');
    }
  }

  /** What a step of thread t must leave alone for everybody else. */
  ghost predicate Frame(s: State, t: nat, s': State) {
    && |s'.m.next| == |s.m.next| == |s.places| == |s'.places| && |s'.seen| == |s'.m.pcs| == |s.seen| == |s.m.pcs|
    && Version(s'.history) >= Version(s.history)
    && (Version(s'.history) == Version(s.history) ==> s'.m.header == s.m.header)
    && (forall n | 0 <= n < |s.m.next| && s'.m.next[n] != s.m.next[n] :: s.places[n] == OwnedBy(t))
    && (forall u, n | 0 <= n < |s.places| && u != t && s.places[n] == OwnedBy(u) :: s'.places[n] == OwnedBy(u))
    && (forall u | 0 <= u < |s.m.pcs| && u != t :: s'.m.pcs[u] == s.m.pcs[u] && s'.seen[u] == s.seen[u])
  }

  lemma QuietFrame(s: State, t: nat, a: Action, s': State)
    requires |s.places| == |s.m.next| && Step(s, t, a, s') && ThreadOk(s, t) && Exec(s.m, t, a).Quiet?
    ensures Frame(s, t, s')
  {
    assert ThreadOk(s, t);
  }

  /** An event takes nodes from nobody but the list and the thread itself. */
  ghost predicate TakesFrom(places: seq<Place>, t: nat, e: Event) {
    && (e.Pushed? && e.node < |places| ==> places[e.node] == OwnedBy(t))
    && (e.Popped? && e.ret.At? && e.ret.node < |places| ==> places[e.ret.node].Listed?)
  }

  lemma OwnedStay(places: seq<Place>, t: nat, e: Event)
    requires TakesFrom(places, t, e)
    ensures var places' := PlacesAfter(places, t, e);
            && |places'| == |places|
            && forall u, n | 0 <= n < |places| && u != t && places[n] == OwnedBy(u) :: places'[n] == OwnedBy(u)
  {
  }

  lemma EmitTakes(s: State, t: nat, a: Action)
    requires ListOk(s) && t < |s.m.pcs| == |s.seen| && ThreadOk(s, t) && Exec(s.m, t, a).Emit?
    ensures TakesFrom(s.places, t, Exec(s.m, t, a).e)
  {
    assert s.m.header.next == LinkAt(Replay(s.history), 0);
  }

  lemma EmitFrame(s: State, t: nat, a: Action, s': State)
    requires ListOk(s) && Step(s, t, a, s') && ThreadOk(s, t) && Exec(s.m, t, a).Emit?
    ensures Frame(s, t, s')
  {
    var e := Exec(s.m, t, a).e;
    EmitShape(s, t, a, s', e);
    EmitTakes(s, t, a);
    OwnedStay(s.places, t, e);
  }

  /** Every step leaves that alone. */
  lemma StepFrame(s: State, t: nat, a: Action, s': State)
    requires Inv(s) && Step(s, t, a, s')
    ensures Frame(s, t, s')
  {
    assert ThreadOk(s, t);
    if Exec(s.m, t, a).Emit? { EmitFrame(s, t, a, s'); } else { QuietFrame(s, t, a, s'); }
  }

  /** Another thread's assertion survives: the version only grows, and only owned nodes are written. */
  lemma StepKeepsOthers(s: State, t: nat, a: Action, s': State, u: nat)
    requires Inv(s) && Step(s, t, a, s')
    requires u < |s.m.pcs| == |s'.m.pcs| == |s'.seen| && u != t
    ensures ThreadOk(s', u)
  {
    StepFrame(s, t, a, s');
    assert ThreadOk(s, u);
  }

  /** Every timely step of every thread keeps the invariant. */
  lemma StepKeepsInv(s: State, t: nat, a: Action, s': State)
    requires Inv(s) && Step(s, t, a, s') && Timely(s, t)
    ensures Inv(s')
  {
    assert ThreadOk(s, t);
    StepFrame(s, t, a, s');
    if Exec(s.m, t, a).Emit? {
      EmitKeepsShared(s, t, a, s');
    } else {
      QuietKeepsShared(s, t, a, s');
    }
    StepKeepsSelf(s, t, a, s');
    forall u | 0 <= u < |s.m.pcs| ensures ThreadOk(s', u) {
      if u != t { StepKeepsOthers(s, t, a, s', u); }
    }
  }

  lemma {:induction false} RunInv(run: seq<State>, i: nat)
    requires IsTimelyRun(run) && i < |run|
    ensures Inv(run[i])
  {
    if i > 0 {
      RunInv(run, i - 1);
      assert TimelyAt(run, i);
      var t: nat, a: Action :| Step(run[i - 1], t, a, run[i]) && Timely(run[i - 1], t);
      StepKeepsInv(run[i - 1], t, a, run[i]);
    }
  }

  // ---- what a client gets, in every timely run ----

  /**
    Linearizability: the operations, ordered by their effective steps and with the pointers the code
    returned, are a legal history of a sequential stack, and the memory spells out that stack.
   */
  lemma Linearizable(run: seq<State>, i: nat)
    requires IsTimelyRun(run) && i < |run|
    ensures var s := run[i];
            && Legal(s.history)
            && Links(s.m.header.next, s.m.next, s.places, Replay(s.history))
            && s.m.header.depth == |Replay(s.history)| % WRAP
  {
    RunInv(run, i);
  }

  /** Every node sits at exactly one position of the list or belongs to exactly one client, never both. */
  lemma NothingLostOrDuplicated(run: seq<State>, i: nat, n: nat)
    requires IsTimelyRun(run) && i < |run| && n < |run[i].m.next|
    ensures var s := run[i]; var st := Replay(s.history);
            && n < |s.places|
            && (s.places[n].Listed? <==> exists k | 0 <= k < |st| :: st[k] == n)
            && forall j, k | 0 <= j < |st| && 0 <= k < |st| && st[j] == n == st[k] :: j == k
  {
    Linearizable(run, i);
    var st := Replay(run[i].history);
    assert run[i].places[n].Listed? <==> n in st;
    forall j, k | 0 <= j < |st| && 0 <= k < |st| && st[j] == n == st[k] ensures j == k {
      OnePosition(st, j, k);
    }
  }

  /** What a step that completes an operation says, between two states of a run. */
  lemma EffectBetween(s: State, t: nat, a: Action, s': State, st: seq<nat>, e: Event)
    requires Inv(s) && Legal(s'.history) && Step(s, t, a, s') && Exec(s.m, t, a).Emit?
    requires st == Replay(s.history) && e == Exec(s.m, t, a).e
    ensures LegalEvent(st, e) && Replay(s'.history) == Apply(st, e)
    ensures s'.places == PlacesAfter(s.places, t, e) && s'.m.next == s.m.next
    ensures Links(s.m.header.next, s.m.next, s.places, st)
  {
    EmitShape(s, t, a, s', e);
  }

  lemma RunIsLegal(run: seq<State>, i: nat)
    requires IsTimelyRun(run) && i < |run|
    ensures Legal(run[i].history)
  {
    RunInv(run, i);
  }

  /** What the last step of a run says when it completes an operation. */
  lemma EffectOf(run: seq<State>, i: nat, t: nat, a: Action) returns (st: seq<nat>, e: Event)
    requires IsTimelyRun(run) && 0 < i < |run|
    requires Step(run[i - 1], t, a, run[i]) && Timely(run[i - 1], t)
    requires Exec(run[i - 1].m, t, a).Emit?
    ensures st == Replay(run[i - 1].history) && e == Exec(run[i - 1].m, t, a).e
    ensures LegalEvent(st, e) && Replay(run[i].history) == Apply(st, e)
    ensures run[i].places == PlacesAfter(run[i - 1].places, t, e) && run[i].m.next == run[i - 1].m.next
    ensures Links(run[i - 1].m.header.next, run[i - 1].m.next, run[i - 1].places, st)
  {
    RunInv(run, i - 1);
    RunIsLegal(run, i);
    st, e := Replay(run[i - 1].history), Exec(run[i - 1].m, t, a).e;
    EffectBetween(run[i - 1], t, a, run[i], st, e);
  }

  lemma PoppedTop(places: seq<Place>, next: seq<Link>, first: Link, st: seq<nat>, t: nat, n: nat)
    requires Links(first, next, places, st) && LegalEvent(st, Popped(At(n)))
    ensures var places' := PlacesAfter(places, t, Popped(At(n)));
            && st != [] && st[0] == n && n !in st[1..]
            && n < |places'| && places'[n] == OwnedBy(t)
  {
    assert n in st;
    TailDistinct(st);
  }

  /** A node handed out by a pop was on top, and only its new owner may push it again. */
  lemma PopHandsOutTop(run: seq<State>, i: nat, t: nat, a: Action, n: nat)
    requires IsTimelyRun(run) && 0 < i < |run|
    requires Step(run[i - 1], t, a, run[i]) && Timely(run[i - 1], t)
    requires Exec(run[i - 1].m, t, a).Emit? && Exec(run[i - 1].m, t, a).e == Popped(At(n))
    ensures var st := Replay(run[i - 1].history);
            && st != [] && st[0] == n
            && Replay(run[i].history) == st[1..] && n !in st[1..]
            && n < |run[i].places| && run[i].places[n] == OwnedBy(t)
            && (forall u | Allowed(run[i], u, CallPush(n)) :: u == t)
  {
    var st, e := EffectOf(run, i, t, a);
    var s := run[i - 1];
    PoppedTop(s.places, s.m.next, s.m.header.next, st, t, n);
  }

  /** When a pop's swap succeeds, the successor it read earlier is the right new top, re-pushes notwithstanding. */
  lemma SavedSuccessorIsRight(run: seq<State>, i: nat, t: nat, copy: Header, succ: Link)
    requires IsTimelyRun(run) && i < |run| && t < |run[i].m.pcs| && Timely(run[i], t)
    requires run[i].m.pcs[t] == PopCas(copy, succ) && run[i].m.header == copy
    ensures succ == LinkAt(Replay(run[i].history), 1)
  {
    RunInv(run, i);
    assert ThreadOk(run[i], t);
    CasInTime(run[i], t, copy);
  }

  lemma FlushedChain(next: seq<Link>, places: seq<Place>, first: Link, st: seq<nat>, t: nat, ret: Link)
    requires Links(first, next, places, st)
    ensures forall k | 0 <= k < |st| :: st[k] < |next| && next[st[k]] == LinkAt(st, k + 1)
    ensures var places' := PlacesAfter(places, t, Flushed(ret));
            forall k | 0 <= k < |st| :: st[k] < |places'| && places'[st[k]] == OwnedBy(t)
  {
  }

  /** A flush hands its caller the whole chain, still linked in stack order, and empties the list. */
  lemma FlushHandsOutChain(run: seq<State>, i: nat, t: nat, a: Action, ret: Link)
    requires IsTimelyRun(run) && 0 < i < |run|
    requires Step(run[i - 1], t, a, run[i]) && Timely(run[i - 1], t)
    requires Exec(run[i - 1].m, t, a).Emit? && Exec(run[i - 1].m, t, a).e == Flushed(ret)
    ensures var st := Replay(run[i - 1].history);
            && ret == LinkAt(st, 0)
            && (forall k | 0 <= k < |st| :: st[k] < |run[i].m.next| && run[i].m.next[st[k]] == LinkAt(st, k + 1))
            && (forall k | 0 <= k < |st| :: st[k] < |run[i].places| && run[i].places[st[k]] == OwnedBy(t))
            && Replay(run[i].history) == []
  {
    var st, e := EffectOf(run, i, t, a);
    var s := run[i - 1];
    FlushedChain(s.m.next, s.places, s.m.header.next, st, t, ret);
  }

  /** The Depth test of a flush gives up exactly on multiples of 65536, empty or not. */
  lemma FlushGivesUpExactly(run: seq<State>, i: nat, t: nat)
    requires IsTimelyRun(run) && i < |run| && t < |run[i].m.pcs| && run[i].m.pcs[t].FlushQuery?
    ensures (Exec(run[i].m, t, Continue(true)).Emit? && Exec(run[i].m, t, Continue(true)).e.FlushSkipped?)
            <==> |Replay(run[i].history)| % WRAP == 0
  {
    RunInv(run, i);
  }

  // ---- progress ----

  /** In the middle of an attempt: at least one half of the header is copied. */
  predicate Copying(pc: PC) {
    pc.HaveNext? || pc.HaveTag? || pc.PushLink? || pc.PopNext? || AtCas(pc)
  }

  /** What is copied so far is what the header says now. */
  predicate UpToDate(pc: PC, header: Header) {
    match pc
    case HaveNext(_, next) => next == header.next
    case HaveTag(_, depth, sequence) => depth == header.depth && sequence == header.sequence
    case PushLink(_, copy) => copy == header
    case PushCas(_, copy) => copy == header
    case PopNext(copy) => copy == header
    case PopCas(copy, _) => copy == header
    case FlushCas(copy) => copy == header
    case _ => true
  }

  /** Thread t has been in one attempt since it was about to load the header at j. */
  ghost predicate InAttempt(run: seq<State>, j: nat, i: nat, t: nat) {
    && j < i < |run|
    && (forall m | j <= m <= i :: t < |run[m].m.pcs|)
    && run[j].m.pcs[t].LoadHeader?
    && forall m | j < m <= i :: Copying(run[m].m.pcs[t])
  }

  /** An update ends the attempt of the thread that makes it. */
  ghost predicate UpdateEnds(s: State, u: nat, a: Action, s': State)
    requires u < |s.m.pcs|
  {
    Version(s'.history) > Version(s.history) ==>
      Exec(s.m, u, a).Emit? && Update(Exec(s.m, u, a).e) == 1 && u < |s'.m.pcs| && !Copying(s'.m.pcs[u])
  }

  lemma UpdateEndsAttempt(s: State, u: nat, a: Action, s': State)
    requires Step(s, u, a, s')
    ensures UpdateEnds(s, u, a, s')
  {
    if Exec(s.m, u, a).Emit? { Append(s.history, Exec(s.m, u, a).e); }
  }

  lemma StepAt(run: seq<State>, i: nat) returns (u: nat, a: Action)
    requires IsTimelyRun(run) && 0 < i < |run|
    ensures Step(run[i - 1], u, a, run[i]) && Frame(run[i - 1], u, run[i]) && UpdateEnds(run[i - 1], u, a, run[i])
  {
    RunInv(run, i - 1);
    assert TimelyAt(run, i);
    u, a :| Step(run[i - 1], u, a, run[i]) && Timely(run[i - 1], u);
    StepFrame(run[i - 1], u, a, run[i]);
    UpdateEndsAttempt(run[i - 1], u, a, run[i]);
  }

  /** While no update takes effect a copy stays up to date, torn or not. */
  lemma CopyStep(s: State, u: nat, a: Action, s': State, t: nat)
    requires Step(s, u, a, s') && Frame(s, u, s') && t < |s.m.pcs|
    requires s.m.pcs[t].LoadHeader? || UpToDate(s.m.pcs[t], s.m.header)
    requires Copying(s'.m.pcs[t]) && Version(s'.history) == Version(s.history)
    ensures UpToDate(s'.m.pcs[t], s'.m.header)
  {
    assert s'.m.header == s.m.header;
    if u != t { assert s'.m.pcs[t] == s.m.pcs[t]; }
  }

  lemma {:induction false} VersionGrows(run: seq<State>, j: nat, i: nat)
    requires IsTimelyRun(run) && j <= i < |run|
    ensures Version(run[j].history) <= Version(run[i].history)
  {
    if j < i {
      VersionGrows(run, j, i - 1);
      var u, a := StepAt(run, i);
    }
  }

  lemma {:induction false} AttemptUpToDate(run: seq<State>, j: nat, i: nat, t: nat)
    requires IsTimelyRun(run) && InAttempt(run, j, i, t)
    requires Version(run[i].history) == Version(run[j].history)
    ensures UpToDate(run[i].m.pcs[t], run[i].m.header)
  {
    VersionGrows(run, j, i - 1);
    var u, a := StepAt(run, i);
    if j < i - 1 { AttemptUpToDate(run, j, i - 1, t); }
    CopyStep(run[i - 1], u, a, run[i], t);
  }

  /** Where an attempt began. */
  lemma {:induction false} AttemptBegan(run: seq<State>, i: nat, t: nat) returns (j: nat)
    requires IsTimelyRun(run) && i < |run| && t < |run[i].m.pcs| && Copying(run[i].m.pcs[t])
    ensures InAttempt(run, j, i, t)
  {
    var u, a := StepAt(run, i);
    if run[i - 1].m.pcs[t].LoadHeader? {
      j := i - 1;
    } else {
      j := AttemptBegan(run, i - 1, t);
    }
  }

  lemma {:induction false} SomebodyElse(run: seq<State>, j: nat, i: nat, t: nat) returns (m: nat, u: nat, a: Action)
    requires IsTimelyRun(run) && InAttempt(run, j, i, t)
    requires Version(run[j].history) < Version(run[i].history)
    ensures j <= m < i && u != t && Step(run[m], u, a, run[m + 1])
    ensures Exec(run[m].m, u, a).Emit? && Update(Exec(run[m].m, u, a).e) == 1
  {
    u, a := StepAt(run, i);
    if Version(run[i - 1].history) < Version(run[i].history) {
      m := i - 1;
    } else {
      m, u, a := SomebodyElse(run, j, i - 1, t);
    }
  }

  /**
    Lock freedom: a swap that fails, and so sends the thread back to loading the header, does so because somebody
    else's push, pop or flush has taken effect since the thread began to copy it.
   */
  lemma FailedSwapMeansProgress(run: seq<State>, i: nat, t: nat, a: Action) returns (j: nat, m: nat, u: nat, b: Action)
    requires IsTimelyRun(run) && i + 1 < |run| && Step(run[i], t, a, run[i + 1])
    requires AtCas(run[i].m.pcs[t]) && Exec(run[i].m, t, a).Quiet?
    ensures t < |run[i + 1].m.pcs| && run[i + 1].m.pcs[t].LoadHeader?
    ensures InAttempt(run, j, i, t) && j <= m < i
    ensures u != t && Step(run[m], u, b, run[m + 1])
    ensures Exec(run[m].m, u, b).Emit? && Update(Exec(run[m].m, u, b).e) == 1
  {
    j := AttemptBegan(run, i, t);
    VersionGrows(run, j, i);
    if Version(run[j].history) == Version(run[i].history) {
      AttemptUpToDate(run, j, i, t);
    }
    m, u, b := SomebodyElse(run, j, i, t);
  }

  // ---- whole calls, from the call to the return, however others interleave ----

  ghost predicate StepBy(run: seq<State>, who: seq<(nat, Action)>, m: nat)
    requires m + 1 < |run| && m < |who|
  {
    Step(run[m], who[m].0, who[m].1, run[m + 1]) && Timely(run[m], who[m].0)
  }

  /** A timely run and who made each of its steps. */
  ghost predicate IsTrace(run: seq<State>, who: seq<(nat, Action)>) {
    && |run| == |who| + 1
    && Init(run[0])
    && forall m | 0 <= m < |who| :: StepBy(run, who, m)
  }

  /** What thread t's action makes take effect, if anything. */
  function EventAt(m: Memory, t: nat, a: Action): seq<Event> {
    if t < |m.pcs| && Exec(m, t, a).Emit? then [Exec(m, t, a).e] else []
  }

  /** What has been added to a history. */
  ghost function Added(before: seq<Event>, now: seq<Event>): seq<Event> {
    if |before| <= |now| then now[|before|..] else []
  }

  /** The events that the steps of thread t from j up to i have added to the history, in order. */
  ghost function EventsOf(run: seq<State>, who: seq<(nat, Action)>, t: nat, j: nat, i: nat): seq<Event>
    requires j <= i <= |who| < |run|
    decreases i
  {
    if i == j then []
    else EventsOf(run, who, t, j, i - 1) + (if who[i - 1].0 == t then Added(run[i - 1].history, run[i].history) else [])
  }

  lemma StepAdds(s: State, t: nat, a: Action, s': State)
    requires Step(s, t, a, s')
    ensures Added(s.history, s'.history) == EventAt(s.m, t, a)
    ensures !Exec(s.m, t, a).Blocked? && s'.m == Exec(s.m, t, a).m
  {
  }

  function CallOf(op: Op): Action {
    match op
    case Push(node) => CallPush(node)
    case Pop => CallPop
    case Flush => CallFlush
  }

  /** Thread t makes the call at j and is in it after every step from there on, up to i. */
  ghost predicate Busy(run: seq<State>, who: seq<(nat, Action)>, j: nat, i: nat, t: nat, op: Op) {
    && j < i < |run| == |who| + 1
    && who[j] == (t, CallOf(op))
    && forall x | j < x <= i :: t < |run[x].m.pcs| && !run[x].m.pcs[t].Idle?
  }

  /** Thread t makes the call at j and returns from it at i. */
  ghost predicate Returns(run: seq<State>, who: seq<(nat, Action)>, j: nat, i: nat, t: nat, op: Op) {
    && j + 1 < i < |run|
    && Busy(run, who, j, i - 1, t, op)
    && t < |run[i].m.pcs| && run[i].m.pcs[t].Idle?
  }

  /** What a call may amount to. */
  predicate IsResult(op: Op, e: Event) {
    match op
    case Push(node) => e.Pushed? && e.node == node
    case Pop => e.Popped?
    case Flush => e.Flushed? || e.FlushSkipped?
  }

  predicate Within(op: Op, pc: PC) {
    match pc
    case Idle => false
    case FlushQuery => op.Flush?
    case LoadHeader(o) => o == op
    case HaveNext(o, _) => o == op
    case HaveTag(o, _, _) => o == op
    case PushLink(node, _) => op == Push(node)
    case PushCas(node, _) => op == Push(node)
    case PopNext(_) => op.Pop?
    case PopCas(_, _) => op.Pop?
    case FlushCas(_) => op.Flush?
  }

  /** In a call nothing has taken effect yet, unless it is a pop that has seen a null Next word. */
  predicate Midway(op: Op, pc: PC, es: seq<Event>) {
    Within(op, pc) && es == (if pc.HaveNext? && op.Pop? && pc.next.Null? then [Popped(Null)] else [])
  }

  predicate Finished(op: Op, es: seq<Event>) {
    |es| == 1 && IsResult(op, es[0])
  }

  lemma MidwayStep(m: Memory, t: nat, a: Action, m': Memory, op: Op, es: seq<Event>)
    requires t < |m.pcs| && Midway(op, m.pcs[t], es) && !Exec(m, t, a).Blocked? && m' == Exec(m, t, a).m
    ensures t < |m'.pcs|
    ensures var es' := es + EventAt(m, t, a);
            if m'.pcs[t].Idle? then Finished(op, es') else Midway(op, m'.pcs[t], es')
  {
  }

  lemma OthersMove(s: State, u: nat, a: Action, s': State, t: nat)
    requires Step(s, u, a, s') && u != t && t < |s.m.pcs|
    ensures t < |s'.m.pcs| && s'.m.pcs[t] == s.m.pcs[t]
  {
  }

  lemma CallBegins(s: State, t: nat, op: Op, s': State)
    requires Step(s, t, CallOf(op), s')
    ensures t < |s'.m.pcs| && Midway(op, s'.m.pcs[t], Added(s.history, s'.history))
  {
  }

  /** A step of any thread, seen from thread t in a call with these events so far. */
  lemma CallGoesOn(s: State, u: nat, a: Action, s': State, t: nat, op: Op, es: seq<Event>)
    requires Step(s, u, a, s') && t < |s.m.pcs| && Midway(op, s.m.pcs[t], es)
    ensures t < |s'.m.pcs|
    ensures var es' := if u == t then es + Added(s.history, s'.history) else es;
            if s'.m.pcs[t].Idle? then Finished(op, es') else Midway(op, s'.m.pcs[t], es')
  {
    if u == t {
      StepAdds(s, t, a, s');
      MidwayStep(s.m, t, a, s'.m, op, es);
    } else {
      OthersMove(s, u, a, s', t);
    }
  }

  /** Where thread t's call stands at i. */
  ghost predicate MidwayAt(run: seq<State>, who: seq<(nat, Action)>, j: nat, i: nat, t: nat, op: Op)
    requires j <= i <= |who| < |run|
  {
    t < |run[i].m.pcs| && Midway(op, run[i].m.pcs[t], EventsOf(run, who, t, j, i))
  }

  lemma EventsBegin(run: seq<State>, who: seq<(nat, Action)>, t: nat, j: nat)
    requires j < |who| < |run| && who[j].0 == t
    ensures EventsOf(run, who, t, j, j + 1) == Added(run[j].history, run[j + 1].history)
  {
    assert EventsOf(run, who, t, j, j) == [];
  }

  lemma TraceBegins(run: seq<State>, who: seq<(nat, Action)>, j: nat, t: nat, op: Op)
    requires IsTrace(run, who) && j < |who| && who[j] == (t, CallOf(op))
    ensures MidwayAt(run, who, j, j + 1, t, op)
  {
    assert StepBy(run, who, j);
    CallBegins(run[j], t, op, run[j + 1]);
    EventsBegin(run, who, t, j);
  }

  lemma TraceGoesOn(run: seq<State>, who: seq<(nat, Action)>, j: nat, i: nat, t: nat, op: Op)
    requires IsTrace(run, who) && j < i < |who| && MidwayAt(run, who, j, i, t, op)
    ensures t < |run[i + 1].m.pcs|
    ensures if run[i + 1].m.pcs[t].Idle? then Finished(op, EventsOf(run, who, t, j, i + 1))
            else MidwayAt(run, who, j, i + 1, t, op)
  {
    assert StepBy(run, who, i);
    var es := EventsOf(run, who, t, j, i);
    CallGoesOn(run[i], who[i].0, who[i].1, run[i + 1], t, op, es);
    assert es + [] == es;
  }

  lemma {:induction false} MidwayAll(run: seq<State>, who: seq<(nat, Action)>, j: nat, i: nat, t: nat, op: Op)
    requires IsTrace(run, who) && Busy(run, who, j, i, t, op)
    ensures MidwayAt(run, who, j, i, t, op)
    decreases i
  {
    if i == j + 1 {
      TraceBegins(run, who, j, t, op);
    } else {
      MidwayAll(run, who, j, i - 1, t, op);
      TraceGoesOn(run, who, j, i - 1, t, op);
    }
  }

  /**
    Every call takes effect exactly once before it returns, failed swaps and all: a push has pushed its node,
    a pop has popped, a flush has flushed or given up.
   */
  lemma CallTakesEffectOnce(run: seq<State>, who: seq<(nat, Action)>, j: nat, i: nat, t: nat, op: Op) returns (e: Event)
    requires IsTrace(run, who) && Returns(run, who, j, i, t, op)
    ensures EventsOf(run, who, t, j, i) == [e] && IsResult(op, e)
  {
    MidwayAll(run, who, j, i - 1, t, op);
    TraceGoesOn(run, who, j, i - 1, t, op);
    e := EventsOf(run, who, t, j, i)[0];
  }

  lemma TraceIsRun(run: seq<State>, who: seq<(nat, Action)>)
    requires IsTrace(run, who)
    ensures IsTimelyRun(run)
  {
    forall i | 0 < i < |run| ensures TimelyAt(run, i) { assert StepBy(run, who, i - 1); }
  }

  /** Every timely run can be told step by step, so the theorem above is about all of them. */
  lemma {:induction false} RunHasTrace(run: seq<State>) returns (who: seq<(nat, Action)>)
    requires IsTimelyRun(run)
    ensures IsTrace(run, who)
  {
    var n := |run| - 1;
    if n == 0 {
      who := [];
    } else {
      var before := run[..n];
      forall i | 0 < i < |before| ensures TimelyAt(before, i) { assert TimelyAt(run, i); }
      var first := RunHasTrace(before);
      assert TimelyAt(run, n);
      var t: nat, a: Action :| Step(run[n - 1], t, a, run[n]) && Timely(run[n - 1], t);
      who := first + [(t, a)];
      forall m | 0 <= m < |who| ensures StepBy(run, who, m) {
        if m < |first| { assert StepBy(before, first, m); }
      }
    }
  }

  // ---- a thread on its own ----

  /** What comes of a thread's own steps when no other thread makes any, for any order of its loads. */
  function Alone(m: Memory, t: nat, orders: seq<bool>): Memory
    requires t < |m.pcs|
    decreases |orders|
  {
    if orders == [] || m.pcs[t].Idle? then m
    else
      match Exec(m, t, Continue(orders[0]))
      case Blocked => m
      case Quiet(m') => if t < |m'.pcs| then Alone(m', t, orders[1..]) else m'
      case Emit(m', _) => if t < |m'.pcs| then Alone(m', t, orders[1..]) else m'
  }

  /** No step of the thread's call is blocked: the nodes it deals with exist. */
  ghost predicate CanGoOn(m: Memory, t: nat)
    requires t < |m.pcs|
  {
    && LinkOk(m, m.header.next)
    && match m.pcs[t]
       case LoadHeader(op) => op.Push? ==> op.node < |m.next|
       case HaveNext(op, next) => LinkOk(m, next) && (op.Push? ==> op.node < |m.next|)
       case HaveTag(op, _, _) => op.Push? ==> op.node < |m.next|
       case PushLink(node, _) => node < |m.next|
       case PushCas(node, _) => node < |m.next|
       case PopNext(copy) => copy.next.At? && LinkOk(m, copy.next)
       case _ => true
  }

  /** How many more steps it takes at most. */
  function StepsLeft(pc: PC, header: Header): nat {
    match pc
    case Idle => 0
    case FlushQuery => 5
    case LoadHeader(_) => 4
    case HaveNext(_, next) => if next == header.next then 3 else 7
    case HaveTag(_, depth, sequence) => if depth == header.depth && sequence == header.sequence then 3 else 7
    case PushLink(_, copy) => if copy == header then 2 else 6
    case PopNext(copy) => if copy == header then 2 else 6
    case PushCas(_, copy) => if copy == header then 1 else 5
    case PopCas(copy, _) => if copy == header then 1 else 5
    case FlushCas(copy) => if copy == header then 1 else 5
  }

  lemma AloneStep(m: Memory, t: nat, order: bool)
    requires t < |m.pcs| && !m.pcs[t].Idle? && CanGoOn(m, t)
    ensures var r := Exec(m, t, Continue(order));
            && !r.Blocked? && t < |r.m.pcs| && StepsLeft(r.m.pcs[t], r.m.header) < StepsLeft(m.pcs[t], m.header)
            && (r.m.pcs[t].Idle? || CanGoOn(r.m, t))
  {
  }

  lemma {:induction false} AloneGetsThrough(m: Memory, t: nat, orders: seq<bool>)
    requires t < |m.pcs| && (m.pcs[t].Idle? || CanGoOn(m, t)) && |orders| >= StepsLeft(m.pcs[t], m.header)
    ensures var m' := Alone(m, t, orders); t < |m'.pcs| && m'.pcs[t].Idle?
    decreases |orders|
  {
    if !m.pcs[t].Idle? {
      AloneStep(m, t, orders[0]);
      AloneGetsThrough(Exec(m, t, Continue(orders[0])).m, t, orders[1..]);
    }
  }

  /** Wherever a call has got to in a run, with a stale copy of the header or a torn one, seven steps of its own finish it. */
  lemma AloneFinishes(run: seq<State>, i: nat, t: nat, orders: seq<bool>)
    requires IsTimelyRun(run) && i < |run| && t < |run[i].m.pcs| && |orders| >= 7
    ensures var m' := Alone(run[i].m, t, orders); t < |m'.pcs| && m'.pcs[t].Idle?
  {
    RunInv(run, i);
    assert ThreadOk(run[i], t);
    AloneGetsThrough(run[i].m, t, orders);
  }

  // ---- the bound of 65536 updates cannot be relaxed ----

  lemma Extend(run: seq<State>, t: nat, a: Action, s': State) returns (run': seq<State>)
    requires IsTimelyRun(run)
    requires Step(run[|run| - 1], t, a, s') && Timely(run[|run| - 1], t)
    ensures run' == run + [s'] && IsTimelyRun(run')
  {
    run' := run + [s'];
    forall i | 0 < i < |run'| ensures TimelyAt(run', i) {
      if i < |run| { assert TimelyAt(run, i); }
    }
  }

  /** The state after thread t, idle before and after, has pushed `node` without interference. */
  function SoloPush(s: State, t: nat, node: nat): State
    requires t < |s.seen| && node < |s.m.next| == |s.places|
  {
    var h := s.m.header;
    State(s.m.(header := Header(At(node), (h.depth + 1) % WRAP, (h.sequence + 1) % WRAP), next := s.m.next[node := h.next]),
          s.history + [Pushed(node, h.next)], s.places[node := Listed], s.seen[t := Version(s.history)])
  }

  /** The state after thread t has popped the top without interference. */
  function SoloPop(s: State, t: nat): State
    requires t < |s.seen| && s.m.header.next.At? && s.m.header.next.node < |s.m.next| == |s.places|
  {
    var h := s.m.header;
    State(s.m.(header := Header(s.m.next[h.next.node], (h.depth + WRAP - 1) % WRAP, (h.sequence + 1) % WRAP)),
          s.history + [Popped(h.next)], s.places[h.next.node := OwnedBy(t)], s.seen[t := Version(s.history)])
  }

  /** Thread t at its swap, with the header copied and the node linked to the top. */
  function AtPushCas(s: State, t: nat, node: nat): State
    requires t < |s.m.pcs| == |s.seen| && node < |s.m.next|
  {
    var h := s.m.header;
    State(Move(s.m.(next := s.m.next[node := h.next]), t, PushCas(node, h)), s.history, s.places,
          s.seen[t := Version(s.history)])
  }

  lemma RunPushUpToCas(run: seq<State>, t: nat, node: nat) returns (run': seq<State>)
    requires IsTimelyRun(run)
    requires var s := run[|run| - 1];
             && t < |s.m.pcs| == |s.seen| && s.m.pcs[t].Idle?
             && node < |s.m.next| == |s.places| && s.places[node] == OwnedBy(t)
    ensures IsTimelyRun(run') && |run'| > |run|
    ensures run'[|run'| - 1] == AtPushCas(run[|run| - 1], t, node)
  {
    var s := run[|run| - 1];
    var h := s.m.header;
    var seen := s.seen[t := Version(s.history)];
    var m1 := Move(s.m, t, LoadHeader(Push(node)));
    run' := Extend(run, t, CallPush(node), State(m1, s.history, s.places, s.seen));
    var m2 := Move(m1, t, HaveNext(Push(node), h.next));
    run' := Extend(run', t, Continue(true), State(m2, s.history, s.places, s.seen));
    var m3 := Move(m2, t, PushLink(node, h));
    run' := Extend(run', t, Continue(true), State(m3, s.history, s.places, seen));
    var m4 := Move(m3.(next := m3.next[node := h.next]), t, PushCas(node, h));
    run' := Extend(run', t, Continue(true), State(m4, s.history, s.places, seen));
    assert m4.pcs == s.m.pcs[t := PushCas(node, h)];
  }

  lemma RunPush(run: seq<State>, t: nat, node: nat) returns (run': seq<State>)
    requires IsTimelyRun(run)
    requires var s := run[|run| - 1];
             && t < |s.m.pcs| == |s.seen| && s.m.pcs[t].Idle?
             && node < |s.m.next| == |s.places| && s.places[node] == OwnedBy(t)
    ensures IsTimelyRun(run') && |run'| > |run|
    ensures run'[|run'| - 1] == SoloPush(run[|run| - 1], t, node)
  {
    var s := run[|run| - 1];
    run' := RunPushUpToCas(run, t, node);
    assert run'[|run'| - 1].m.pcs[t := Idle] == s.m.pcs;
    run' := Extend(run', t, Continue(true), SoloPush(s, t, node));
  }

  lemma RunPopUpToCas(run: seq<State>, t: nat) returns (run': seq<State>)
    requires IsTimelyRun(run)
    requires var s := run[|run| - 1];
             && t < |s.m.pcs| == |s.seen| && s.m.pcs[t].Idle?
             && s.m.header.next.At? && s.m.header.next.node < |s.m.next| == |s.places|
    ensures IsTimelyRun(run') && |run'| > |run|
    ensures var s := run[|run| - 1];
            run'[|run'| - 1] == State(Move(s.m, t, PopCas(s.m.header, s.m.next[s.m.header.next.node])), s.history, s.places,
                                      s.seen[t := Version(s.history)])
  {
    var s := run[|run| - 1];
    var h := s.m.header;
    var seen := s.seen[t := Version(s.history)];
    var m1 := Move(s.m, t, LoadHeader(Pop));
    run' := Extend(run, t, CallPop, State(m1, s.history, s.places, s.seen));
    var m2 := Move(m1, t, HaveNext(Pop, h.next));
    run' := Extend(run', t, Continue(true), State(m2, s.history, s.places, s.seen));
    var m3 := Move(m2, t, PopNext(h));
    run' := Extend(run', t, Continue(true), State(m3, s.history, s.places, seen));
    var m4 := Move(m3, t, PopCas(h, s.m.next[h.next.node]));
    run' := Extend(run', t, Continue(true), State(m4, s.history, s.places, seen));
    assert m4.pcs == s.m.pcs[t := PopCas(h, s.m.next[h.next.node])];
  }

  lemma RunPop(run: seq<State>, t: nat) returns (run': seq<State>)
    requires IsTimelyRun(run)
    requires var s := run[|run| - 1];
             && t < |s.m.pcs| == |s.seen| && s.m.pcs[t].Idle?
             && s.m.header.next.At? && s.m.header.next.node < |s.m.next| == |s.places|
    ensures IsTimelyRun(run') && |run'| > |run|
    ensures run'[|run'| - 1] == SoloPop(run[|run| - 1], t)
  {
    var s := run[|run| - 1];
    run' := RunPopUpToCas(run, t);
    assert run'[|run'| - 1].m.pcs[t := Idle] == s.m.pcs;
    run' := Extend(run', t, Continue(true), SoloPop(s, t));
  }

  /** A flush on its own empties a list whose Depth is not 0. */
  lemma RunFlush(run: seq<State>, t: nat) returns (run': seq<State>)
    requires IsTimelyRun(run)
    requires var s := run[|run| - 1];
             t < |s.m.pcs| == |s.seen| && s.m.pcs[t].Idle? && s.m.header.depth != 0
    ensures IsTimelyRun(run') && |run'| > |run|
    ensures var s := run[|run| - 1]; var e := Flushed(s.m.header.next);
            run'[|run'| - 1] == State(s.m.(header := Header(Null, 0, (s.m.header.sequence + 1) % WRAP)), s.history + [e],
                                      PlacesAfter(s.places, t, e), s.seen[t := Version(s.history)])
  {
    var s := run[|run| - 1];
    var h := s.m.header;
    var seen := s.seen[t := Version(s.history)];
    var m1 := Move(s.m, t, FlushQuery);
    run' := Extend(run, t, CallFlush, State(m1, s.history, s.places, s.seen));
    var m2 := Move(m1, t, LoadHeader(Flush));
    run' := Extend(run', t, Continue(true), State(m2, s.history, s.places, s.seen));
    var m3 := Move(m2, t, HaveNext(Flush, h.next));
    run' := Extend(run', t, Continue(true), State(m3, s.history, s.places, s.seen));
    var m4 := Move(m3, t, FlushCas(h));
    run' := Extend(run', t, Continue(true), State(m4, s.history, s.places, seen));
    var m5 := s.m.(header := Header(Null, 0, (h.sequence + 1) % WRAP));
    assert m4.pcs[t := Idle] == s.m.pcs;
    var e := Flushed(h.next);
    run' := Extend(run', t, Continue(true), State(m5, s.history + [e], PlacesAfter(s.places, t, e), seen));
  }

  /** A pop on its own of an empty list returns NULL and changes nothing. */
  lemma RunPopEmpty(run: seq<State>, t: nat) returns (run': seq<State>)
    requires IsTimelyRun(run)
    requires var s := run[|run| - 1];
             t < |s.m.pcs| == |s.seen| && s.m.pcs[t].Idle? && s.m.header.next.Null?
    ensures IsTimelyRun(run') && |run'| > |run|
    ensures var s := run[|run| - 1];
            run'[|run'| - 1] == State(s.m, s.history + [Popped(Null)], s.places, s.seen[t := Version(s.history)])
  {
    var s := run[|run| - 1];
    var m1 := Move(s.m, t, LoadHeader(Pop));
    run' := Extend(run, t, CallPop, State(m1, s.history, s.places, s.seen));
    var m2 := Move(m1, t, HaveNext(Pop, Null));
    var history := s.history + [Popped(Null)];
    run' := Extend(run', t, Continue(true), State(m2, history, s.places, s.seen));
    Append(s.history, Popped(Null));
    assert m2.pcs[t := Idle] == s.m.pcs;
    run' := Extend(run', t, Continue(true), State(s.m, history, s.places, s.seen[t := Version(s.history)]));
  }

  /** One thread that owns m nodes. */
  function Owner(m: nat): State {
    State(Memory(Header(Null, 0, 0), seq(m, _ => Null), [Idle]), [], seq(m, _ => OwnedBy(0)), [0])
  }

  /** It has pushed the first k of them. */
  ghost predicate HasPushed(s: State, m: nat, k: nat) {
    && s.m.pcs == [Idle] && |s.seen| == 1 && |s.m.next| == |s.places| == m
    && (forall n | k <= n < m :: s.places[n] == OwnedBy(0))
    && |Replay(s.history)| == k
  }

  lemma PushesOneMore(s: State, m: nat, k: nat)
    requires HasPushed(s, m, k) && k < m
    ensures HasPushed(SoloPush(s, 0, k), m, k + 1)
  {
    Append(s.history, Pushed(k, s.m.header.next));
  }

  /** It can push any number of them. */
  lemma {:induction false} RunPushes(m: nat, k: nat) returns (run: seq<State>)
    requires k <= m
    ensures IsTimelyRun(run) && HasPushed(run[|run| - 1], m, k)
    decreases k
  {
    if k == 0 {
      run := [Owner(m)];
    } else {
      run := RunPushes(m, k - 1);
      PushesOneMore(run[|run| - 1], m, k - 1);
      run := RunPush(run, 0, k - 1);
    }
  }

  /** A run that leads to a list of 65536 nodes on which a flush finds Depth 0 and gives up. */
  lemma FlushGivesUpOnNodes() returns (run: seq<State>)
    ensures IsTimelyRun(run)
    ensures var s := run[|run| - 1];
            && |Replay(s.history)| == WRAP && s.m.header.next.At? && s.m.header.depth == 0
            && s.m.pcs == [FlushQuery] && Exec(s.m, 0, Continue(true)) == Emit(Move(s.m, 0, Idle), FlushSkipped)
  {
    run := RunPushes(WRAP, WRAP);
    var s := run[|run| - 1];
    run := Extend(run, 0, CallFlush, s.(m := Move(s.m, 0, FlushQuery)));
    Linearizable(run, |run| - 1);
  }

  /** Thread 0 is about to swap node 0 for node 1, but node 0 now sits on node 2, 4 + 2k updates later. */
  ghost predicate Overtaken(s: State, k: nat) {
    && s.m.header == Header(At(0), 2, (6 + 2 * k) % WRAP)
    && s.m.next == [At(2), Null, Null]
    && s.m.pcs == [PopCas(Header(At(0), 2, 2), At(1)), Idle]
    && Version(s.history) == 6 + 2 * k
    && Replay(s.history) == [0, 2]
    && s.places == [Listed, OwnedBy(1), Listed]
    && |s.seen| == 2 && s.seen[0] == 2
  }

  /** Two threads and three nodes, all owned by thread 1. */
  function Fresh(): State {
    State(Memory(Header(Null, 0, 0), [Null, Null, Null], [Idle, Idle]), [], [OwnedBy(1), OwnedBy(1), OwnedBy(1)], [0, 0])
  }

  lemma TwoPushed()
    ensures var s := SoloPush(SoloPush(Fresh(), 1, 1), 1, 0);
            && s.m == Memory(Header(At(0), 2, 2), [At(1), Null, Null], [Idle, Idle])
            && Version(s.history) == 2 && Replay(s.history) == [0, 1]
            && s.places == [Listed, Listed, OwnedBy(1)] && |s.seen| == 2
  {
    var s1 := SoloPush(Fresh(), 1, 1);
    Append([], Pushed(1, Null));
    assert [] + [Pushed(1, Null)] == s1.history;
    Append(s1.history, Pushed(0, At(1)));
  }

  lemma RunTwoPushes() returns (run: seq<State>)
    ensures IsTimelyRun(run) && run[|run| - 1] == SoloPush(SoloPush(Fresh(), 1, 1), 1, 0)
  {
    run := [Fresh()];
    run := RunPush(run, 1, 1);
    run := RunPush(run, 1, 0);
  }

  lemma OvertakenSetup() returns (run: seq<State>)
    ensures IsTimelyRun(run)
    ensures var s := run[|run| - 1];
            && s.m == Memory(Header(At(0), 2, 2), [At(1), Null, Null], [PopCas(Header(At(0), 2, 2), At(1)), Idle])
            && Version(s.history) == 2 && Replay(s.history) == [0, 1]
            && s.places == [Listed, Listed, OwnedBy(1)] && |s.seen| == 2 && s.seen[0] == 2
  {
    TwoPushed();
    run := RunTwoPushes();
    run := RunPopUpToCas(run, 0);
  }

  lemma OvertakenDrained() returns (run: seq<State>)
    ensures IsTimelyRun(run)
    ensures var s := run[|run| - 1];
            && s.m == Memory(Header(Null, 0, 4), [At(1), Null, Null], [PopCas(Header(At(0), 2, 2), At(1)), Idle])
            && Version(s.history) == 4 && Replay(s.history) == []
            && s.places == [OwnedBy(1), OwnedBy(1), OwnedBy(1)] && |s.seen| == 2 && s.seen[0] == 2
  {
    run := OvertakenSetup();
    var s := run[|run| - 1];
    run := RunPop(run, 1);
    Append(s.history, Popped(At(0)));
    var s1 := run[|run| - 1];
    run := RunPop(run, 1);
    Append(s1.history, Popped(At(1)));
  }

  lemma OvertakenStart() returns (run: seq<State>)
    ensures IsTimelyRun(run) && Overtaken(run[|run| - 1], 0)
  {
    run := OvertakenDrained();
    var s := run[|run| - 1];
    run := RunPush(run, 1, 2);
    Append(s.history, Pushed(2, Null));
    var s1 := run[|run| - 1];
    run := RunPush(run, 1, 0);
    Append(s1.history, Pushed(0, At(2)));
  }

  lemma OvertakenPopped(s: State, k: nat)
    requires Overtaken(s, k)
    ensures var s1 := SoloPop(s, 1);
            && s1.m == s.m.(header := Header(At(2), 1, (7 + 2 * k) % WRAP))
            && Version(s1.history) == 7 + 2 * k && Replay(s1.history) == [2]
            && s1.places == [OwnedBy(1), OwnedBy(1), Listed]
            && |s1.seen| == 2 && s1.seen[0] == 2
  {
    Append(s.history, Popped(At(0)));
  }

  /** Popping node 0 and pushing it again is two more updates. */
  lemma OvertakenMore(s: State, k: nat)
    requires Overtaken(s, k)
    ensures Overtaken(SoloPush(SoloPop(s, 1), 1, 0), k + 1)
  {
    OvertakenPopped(s, k);
    Append(SoloPop(s, 1).history, Pushed(0, At(2)));
  }

  lemma OvertakenOn(run: seq<State>, k: nat) returns (run': seq<State>)
    requires IsTimelyRun(run) && Overtaken(run[|run| - 1], k)
    ensures IsTimelyRun(run') && run'[|run'| - 1] == SoloPush(SoloPop(run[|run| - 1], 1), 1, 0)
  {
    run' := RunPop(run, 1);
    run' := RunPush(run', 1, 0);
  }

  lemma {:induction false} OvertakenRun(k: nat) returns (run: seq<State>)
    ensures IsTimelyRun(run) && Overtaken(run[|run| - 1], k)
  {
    if k == 0 {
      run := OvertakenStart();
    } else {
      run := OvertakenRun(k - 1);
      OvertakenMore(run[|run| - 1], k - 1);
      run := OvertakenOn(run, k - 1);
    }
  }

  /** After exactly 65536 updates a pop's swap can succeed although the list has changed, and the list is then broken. */
  lemma BoundIsTight() returns (run: seq<State>, broken: State)
    ensures IsTimelyRun(run)
    ensures var s := run[|run| - 1];
            && Step(s, 0, Continue(true), broken)
            && |s.seen| > 0 && Version(s.history) - s.seen[0] == WRAP
    ensures !Links(broken.m.header.next, broken.m.next, broken.places, Replay(broken.history))
  {
    run := OvertakenRun(32766);
    var s := run[|run| - 1];
    broken := State(s.m.(header := Header(At(1), 1, 3), pcs := s.m.pcs[0 := Idle]),
                    s.history + [Popped(At(0))], s.places[0 := OwnedBy(0)], s.seen);
    Append(s.history, Popped(At(0)));
  }
}

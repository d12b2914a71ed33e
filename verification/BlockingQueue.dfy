/**
 * The bounded blocking queue: items under a mutex, tokens in a channel, and the two
 * updated in separate steps by any number of threads.
 *
 * A state counts threads by where they stand between their atomic steps; a run is any
 * interleaving.  `pushed`, `gone`, `cancels`, `drained`, `idleWakeups`, `begun` and
 * `aborted` are history and steer nothing.
 */
module BlockingQueue {
  import opened Basics

  /** How an item left the queue. */
  datatype Fate<T> = Delivered(item: T) | Dropped(item: T)

  datatype State<T> = State(
    capacity: nat,       // items the queue may hold; 0 is unbounded
    max: nat,            // tokens the channel buffers
    items: seq<T>,
    drops: nat,
    toPost: nat,         // pushes past their critical section, token not sent yet
    pending: nat,        // sends waiting for room or for a receiver
    buffered: nat,       // tokens in the channel's buffer
    waiting: nat,        // pops about to call receive, for the first time or again
    parked: nat,         // pops suspended in receive
    holding: nat,        // pops that received a token and have not looked at the queue yet
    cancelling: nat,     // cancels that have cancelled the channel and not drained yet
    stranded: seq<nat>,  // per cancel that has drained, what it has not added to drops yet
    pushed: seq<T>,
    gone: seq<Fate<T>>,
    cancels: nat,
    drained: nat,        // items that cancels have thrown away
    idleWakeups: nat,    // tokens a pop found nothing behind
    begun: nat,          // pops ever called
    aborted: nat         // pops that a cancel woke with an error
  ) {
    /** A push that finds the queue full, and so owns no token. */
    predicate Full() { capacity != 0 && |items| >= capacity }

    /** Every token that some pop holds or can still get. */
    function Tokens(): nat { toPost + pending + buffered + holding }
  }

  // ------------------------------------------------------------ atomic steps

  datatype Step<T> =
    | Push(item: T)
    | Post
    | BeginPop
    | Receive
    | Take
    | CancelChannel
    | Drain
    | CountStranded(which: nat)

  predicate Enabled<T>(s: State<T>, step: Step<T>) {
    match step
    case Push(_) => true
    case Post => s.toPost > 0
    case BeginPop => true
    case Receive => s.waiting > 0
    case Take => s.holding > 0
    case CancelChannel => true
    case Drain => s.cancelling > 0
    case CountStranded(which) => which < |s.stranded|
  }

  /** push(), under the lock: a full queue gives up its oldest item and the newcomer inherits its token. */
  function PushStep<T>(s: State<T>, item: T): State<T> {
    if s.Full() && s.items != [] then
      s.(items := s.items[1..] + [item], drops := s.drops + 1,
         pushed := s.pushed + [item], gone := s.gone + [Dropped(s.items[0])])
    else
      s.(items := s.items + [item], toPost := s.toPost + 1, pushed := s.pushed + [item])
  }

  /** The token send: straight to a parked pop, else into the buffer, else it waits. */
  function PostStep<T>(s: State<T>): State<T>
    requires s.toPost > 0
  {
    var sent := s.(toPost := s.toPost - 1);
    if s.parked > 0 then sent.(parked := s.parked - 1, holding := s.holding + 1)
    else if s.buffered < s.max then sent.(buffered := s.buffered + 1)
    else sent.(pending := s.pending + 1)
  }

  /** The receive: a buffered token (a waiting send then moves up), else a waiting send's, else park. */
  function ReceiveStep<T>(s: State<T>): State<T>
    requires s.waiting > 0
  {
    var called := s.(waiting := s.waiting - 1);
    if s.buffered > 0 then
      if s.pending > 0 then called.(pending := s.pending - 1, holding := s.holding + 1)
      else called.(buffered := s.buffered - 1, holding := s.holding + 1)
    else if s.pending > 0 then called.(pending := s.pending - 1, holding := s.holding + 1)
    else called.(parked := s.parked + 1)
  }

  /** pop(), under the lock: the front item, or back to receive when there is nothing behind the token. */
  function TakeStep<T>(s: State<T>): State<T>
    requires s.holding > 0
  {
    var looked := s.(holding := s.holding - 1);
    if s.items == [] then looked.(waiting := s.waiting + 1, idleWakeups := s.idleWakeups + 1)
    else looked.(items := s.items[1..], gone := s.gone + [Delivered(s.items[0])])
  }

  function AllDropped<T>(items: seq<T>): (out: seq<Fate<T>>)
    ensures |out| == |items| && forall i :: 0 <= i < |items| ==> out[i] == Dropped(items[i])
  {
    seq(|items|, i requires 0 <= i < |items| => Dropped(items[i]))
  }

  function Next<T>(s: State<T>, step: Step<T>): State<T>
    requires Enabled(s, step)
  {
    match step
    case Push(item) => PushStep(s, item)
    case Post => PostStep(s)
    case BeginPop => s.(waiting := s.waiting + 1, begun := s.begun + 1)
    case Receive => ReceiveStep(s)
    case Take => TakeStep(s)
    case CancelChannel =>
      s.(pending := 0, parked := 0, cancelling := s.cancelling + 1, cancels := s.cancels + 1,
         aborted := s.aborted + s.parked)
    case Drain =>
      s.(items := [], cancelling := s.cancelling - 1, stranded := s.stranded + [|s.items|],
         gone := s.gone + AllDropped(s.items), drained := s.drained + |s.items|)
    case CountStranded(which) =>
      s.(drops := s.drops + s.stranded[which], stranded := s.stranded[..which] + s.stranded[which + 1..])
  }

  function New<T>(max: nat, capacity: nat): State<T> {
    State(capacity, max, [], 0, 0, 0, 0, 0, 0, 0, 0, [], [], [], 0, 0, 0, 0, 0)
  }

  // ------------------------------------------------------------ history

  function ItemsOf<T>(gone: seq<Fate<T>>): (out: seq<T>)
    ensures |out| == |gone| && forall i :: 0 <= i < |gone| ==> out[i] == gone[i].item
  {
    seq(|gone|, i requires 0 <= i < |gone| => gone[i].item)
  }

  function DeliveredCount<T>(gone: seq<Fate<T>>): nat {
    if gone == [] then 0
    else DeliveredCount(gone[..|gone| - 1]) + if gone[|gone| - 1].Delivered? then 1 else 0
  }

  function Sum(counts: seq<nat>): nat {
    if counts == [] then 0 else Sum(counts[..|counts| - 1]) + counts[|counts| - 1]
  }

  lemma {:induction false} SumWithout(counts: seq<nat>, which: nat)
    requires which < |counts|
    ensures Sum(counts[..which] + counts[which + 1..]) == Sum(counts) - counts[which]
  {
    var n := |counts| - 1;
    var rest := counts[..which] + counts[which + 1..];
    if which == n {
      assert rest == counts[..n];
    } else {
      SumWithout(counts[..n], which);
      assert rest[..n - 1] == counts[..n][..which] + counts[..n][which + 1..];
    }
  }

  lemma {:induction false} DroppingDeliversNothing<T>(gone: seq<Fate<T>>, items: seq<T>)
    ensures DeliveredCount(gone + AllDropped(items)) == DeliveredCount(gone)
  {
    if items == [] {
      assert gone + AllDropped(items) == gone;
    } else {
      var n := |items| - 1;
      DroppingDeliversNothing(gone, items[..n]);
      assert (gone + AllDropped(items))[..|gone| + n] == gone + AllDropped(items[..n]);
    }
  }

  // ------------------------------------------------------------ invariant

  /** Everything pushed is gone or still queued, in order; what left undelivered is in drops or about to be. */
  ghost predicate Accounted<T>(s: State<T>) {
    && s.pushed == ItemsOf(s.gone) + s.items
    && |s.gone| == DeliveredCount(s.gone) + s.drops + Sum(s.stranded)
    && s.drained <= s.drops + Sum(s.stranded)
    && (s.capacity != 0 ==> |s.items| <= s.capacity)
  }

  /** The channel parks a receive only when it has no token, and a send only when its buffer is full. */
  ghost predicate ChannelOk<T>(s: State<T>) {
    && (s.parked > 0 ==> s.buffered == 0 && s.pending == 0)
    && s.buffered <= s.max
    && (s.pending > 0 ==> s.buffered == s.max)
  }

  /**
   * Outside the window of a cancel every queued item has a token; with no cancel ever,
   * exactly one; and a token without an item is one whose item a cancel drained.
   */
  ghost predicate TokensOk<T>(s: State<T>) {
    && (s.cancelling == 0 ==> s.Tokens() >= |s.items|)
    && (s.cancels == 0 ==> s.Tokens() == |s.items| && s.cancelling == 0)
    && s.Tokens() + s.idleWakeups <= |s.items| + s.drained
  }

  ghost predicate Inv<T>(s: State<T>) {
    Accounted(s) && ChannelOk(s) && TokensOk(s)
  }

  lemma OneMoreGone<T>(gone: seq<Fate<T>>, fate: Fate<T>)
    ensures ItemsOf(gone + [fate]) == ItemsOf(gone) + [fate.item]
    ensures DeliveredCount(gone + [fate]) == DeliveredCount(gone) + if fate.Delivered? then 1 else 0
  {
    assert (gone + [fate])[..|gone|] == gone;
  }

  lemma PushKeepsAccounts<T>(s: State<T>, item: T)
    requires Accounted(s)
    ensures Accounted(PushStep(s, item))
  {
    if s.items != [] {
      OneMoreGone(s.gone, Dropped(s.items[0]));
      assert s.items == [s.items[0]] + s.items[1..];
    }
  }

  lemma TakeKeepsAccounts<T>(s: State<T>)
    requires Accounted(s) && s.holding > 0
    ensures Accounted(TakeStep(s))
  {
    if s.items != [] {
      OneMoreGone(s.gone, Delivered(s.items[0]));
      assert s.items == [s.items[0]] + s.items[1..];
    }
  }

  lemma DrainKeepsAccounts<T>(s: State<T>)
    requires Accounted(s) && s.cancelling > 0
    ensures Accounted(Next(s, Drain))
  {
    var t := Next(s, Drain);
    DroppingDeliversNothing(s.gone, s.items);
    assert ItemsOf(t.gone) == ItemsOf(s.gone) + s.items;
    assert t.stranded[..|s.stranded|] == s.stranded;
  }

  lemma StepKeepsAccounts<T>(s: State<T>, step: Step<T>)
    requires Accounted(s) && Enabled(s, step)
    ensures Accounted(Next(s, step))
  {
    hide Accounted;
    match step
    case Push(item) => PushKeepsAccounts(s, item);
    case Take => TakeKeepsAccounts(s);
    case Drain => DrainKeepsAccounts(s);
    case CountStranded(which) => CountKeepsAccounts(s, which);
    case _ => ChannelKeepsAccounts(s, step);
  }

  lemma CountKeepsAccounts<T>(s: State<T>, which: nat)
    requires Accounted(s) && which < |s.stranded|
    ensures Accounted(Next(s, CountStranded(which)))
  {
    SumWithout(s.stranded, which);
  }

  /** Tokens come and go without an item moving. */
  lemma ChannelKeepsAccounts<T>(s: State<T>, step: Step<T>)
    requires Accounted(s) && Enabled(s, step)
    requires step.Post? || step.BeginPop? || step.Receive? || step.CancelChannel?
    ensures Accounted(Next(s, step))
  {
    hide ItemsOf, DeliveredCount, Sum;
  }

  lemma StepKeepsTokens<T>(s: State<T>, step: Step<T>)
    requires ChannelOk(s) && TokensOk(s) && Enabled(s, step)
    ensures ChannelOk(Next(s, step)) && TokensOk(Next(s, step))
  {
  }

  // ------------------------------------------------------------ runs

  /** Any interleaving of the steps of any number of pushes, pops and cancels, from a new queue. */
  ghost predicate IsRun<T>(states: seq<State<T>>, steps: seq<Step<T>>, max: nat, capacity: nat) {
    && |states| == |steps| + 1
    && states[0] == New(max, capacity)
    && forall k {:trigger steps[k]} :: 0 <= k < |steps| ==>
         Enabled(states[k], steps[k]) && states[k + 1] == Next(states[k], steps[k])
  }

  lemma NewIsOk<T>(max: nat, capacity: nat)
    ensures Inv<T>(New(max, capacity))
  {
  }

  lemma {:induction false} RunKeepsInv<T>(states: seq<State<T>>, steps: seq<Step<T>>, max: nat, capacity: nat, k: nat)
    requires IsRun(states, steps, max, capacity) && k < |states|
    ensures Inv(states[k]) && states[k].capacity == capacity && states[k].max == max
  {
    hide Accounted, ChannelOk, TokensOk;
    NewIsOk<T>(max, capacity);
    if k > 0 {
      RunKeepsInv(states, steps, max, capacity, k - 1);
      StepKeepsAccounts(states[k - 1], steps[k - 1]);
      StepKeepsTokens(states[k - 1], steps[k - 1]);
    }
  }

  /**
   * Exact accounting, in every state of every run: pushed == delivered + drops + size
   * but for what a draining cancel has not counted yet; the queue is a suffix of
   * everything pushed; and a bounded queue stays within its bound.
   */
  lemma AccountingIsExact<T>(states: seq<State<T>>, steps: seq<Step<T>>, max: nat, capacity: nat, k: nat)
    requires IsRun(states, steps, max, capacity) && k < |states|
    ensures var s := states[k];
            && (|s.pushed| == DeliveredCount(s.gone) + s.drops + |s.items| <==> Sum(s.stranded) == 0)
            && |s.pushed| == DeliveredCount(s.gone) + s.drops + |s.items| + Sum(s.stranded)
            && |s.items| <= |s.pushed| && s.items == s.pushed[|s.pushed| - |s.items|..]
            && (capacity != 0 ==> |s.items| <= capacity)
  {
    RunKeepsInv(states, steps, max, capacity, k);
  }

  /** Items leave in the order they were pushed, each exactly once. */
  lemma FirstInFirstOut<T>(states: seq<State<T>>, steps: seq<Step<T>>, max: nat, capacity: nat, k: nat)
    requires IsRun(states, steps, max, capacity) && k < |states|
    ensures |states[k].gone| <= |states[k].pushed|
    ensures forall i :: 0 <= i < |states[k].gone| ==> states[k].gone[i].item == states[k].pushed[i]
  {
    RunKeepsInv(states, steps, max, capacity, k);
  }

  /**
   * When a push may throw an item away: over any run, exactly when the queue is bounded
   * and full, and then it is the oldest.  Otherwise the queue grows by the newcomer.
   */
  lemma PushDropsExactlyWhenFull<T>(states: seq<State<T>>, steps: seq<Step<T>>, max: nat, capacity: nat, k: nat)
    requires IsRun(states, steps, max, capacity) && k < |steps| && steps[k].Push?
    ensures var s, next, full := states[k], states[k + 1], capacity != 0 && |states[k].items| == capacity;
            && (next.drops > s.drops <==> full)
            && next.items == (if full then s.items[1..] else s.items) + [steps[k].item]
            && next.gone == (if full then s.gone + [Dropped(s.items[0])] else s.gone)
            && next.drops == s.drops + (if full then 1 else 0)
            && next.toPost == s.toPost + (if full then 0 else 1)
  {
    RunKeepsInv(states, steps, max, capacity, k);
  }

  /** Only a push into a full queue and a cancel ever drop anything: the drop counter moves with nothing else. */
  lemma OnlyOverflowAndCancelDrop<T>(states: seq<State<T>>, steps: seq<Step<T>>, max: nat, capacity: nat, k: nat)
    requires IsRun(states, steps, max, capacity) && k < |steps|
    requires states[k + 1].drops != states[k].drops || states[k + 1].gone != states[k].gone
    ensures match steps[k]
            case Push(_) => capacity != 0 && |states[k].items| == capacity
            case Take => states[k].items != []
                         && states[k + 1].gone == states[k].gone + [Delivered(states[k].items[0])]
                         && states[k + 1].items == states[k].items[1..] && states[k + 1].drops == states[k].drops
            case Drain => states[k + 1].items == [] && states[k + 1].drained == states[k].drained + |states[k].items|
            case CountStranded(which) => states[k + 1].drops == states[k].drops + states[k].stranded[which]
            case _ => false
  {
    RunKeepsInv(states, steps, max, capacity, k);
  }

  /** Every pop ever called is waiting, parked, holding a token, served, or was woken by a cancel. */
  ghost predicate PopsOk<T>(s: State<T>) {
    s.begun == s.waiting + s.parked + s.holding + DeliveredCount(s.gone) + s.aborted
  }

  lemma StepKeepsPops<T>(s: State<T>, step: Step<T>)
    requires PopsOk(s) && Enabled(s, step)
    ensures PopsOk(Next(s, step))
  {
    match step
    case Push(item) => if s.items != [] { OneMoreGone(s.gone, Dropped(s.items[0])); }
    case Take => if s.items != [] { OneMoreGone(s.gone, Delivered(s.items[0])); }
    case Drain => DroppingDeliversNothing(s.gone, s.items);
    case _ =>
  }

  /** No pop is forgotten, in any state of any run. */
  lemma {:induction false} PopsAreAccountedFor<T>(
      states: seq<State<T>>, steps: seq<Step<T>>, max: nat, capacity: nat, k: nat)
    requires IsRun(states, steps, max, capacity) && k < |states|
    ensures PopsOk(states[k])
  {
    hide PopsOk;
    if k > 0 {
      PopsAreAccountedFor(states, steps, max, capacity, k - 1);
      StepKeepsPops(states[k - 1], steps[k - 1]);
    } else {
      NewPopsOk<T>(max, capacity);
    }
  }

  lemma NewPopsOk<T>(max: nat, capacity: nat)
    ensures PopsOk<T>(New(max, capacity))
  {
  }

  /**
   * What cancel does to the channel: every parked pop is woken and every waiting send
   * aborted, buffered tokens and queued items survive; and no other step aborts a pop.
   */
  lemma CancelWakesEveryPop<T>(s: State<T>, step: Step<T>)
    requires Enabled(s, step)
    ensures Next(s, step).aborted == s.aborted + if step.CancelChannel? then s.parked else 0
    ensures step.CancelChannel? ==>
              var after := Next(s, step);
              after.parked == after.pending == 0 && after.buffered == s.buffered && after.items == s.items
  {
  }

  /** No token is between two steps: none about to be posted, none in the hand of a pop. */
  ghost predicate Quiescent<T>(s: State<T>) { s.toPost == 0 && s.holding == 0 }

  /** No lost wakeup: once things are quiet and no cancel is half done, a pop is parked only on an empty queue. */
  lemma NoLostWakeup<T>(states: seq<State<T>>, steps: seq<Step<T>>, max: nat, capacity: nat, k: nat)
    requires IsRun(states, steps, max, capacity) && k < |states|
    requires Quiescent(states[k]) && states[k].cancelling == 0 && states[k].parked > 0
    ensures states[k].items == []
  {
    RunKeepsInv(states, steps, max, capacity, k);
  }

  /** Before any cancel a token always has an item behind it: no pop that was woken ever goes back to wait. */
  lemma NoSpuriousWakeup<T>(states: seq<State<T>>, steps: seq<Step<T>>, max: nat, capacity: nat, k: nat)
    requires IsRun(states, steps, max, capacity) && k < |steps|
    requires states[k].cancels == 0 && steps[k] == Take
    ensures states[k].items != [] && states[k + 1].gone == states[k].gone + [Delivered(states[k].items[0])]
    ensures capacity != 0 ==> states[k].Tokens() <= capacity
  {
    RunKeepsInv(states, steps, max, capacity, k);
  }

  /**
   * Over every run, cancels included, each drained item costs at most one wakeup for
   * nothing, and never more tokens are about than there are items queued or once drained.
   */
  lemma IdleWakeupsArePaidFor<T>(states: seq<State<T>>, steps: seq<Step<T>>, max: nat, capacity: nat, k: nat)
    requires IsRun(states, steps, max, capacity) && k < |states|
    ensures states[k].Tokens() + states[k].idleWakeups <= |states[k].items| + states[k].drained
    ensures states[k].drained + DeliveredCount(states[k].gone) + |states[k].items| <= |states[k].pushed|
    ensures k < |steps| ==>
              (states[k + 1].idleWakeups > states[k].idleWakeups <==> steps[k] == Take && states[k].items == [])
  {
    RunKeepsInv(states, steps, max, capacity, k);
  }

  // ------------------------------------------------------------ settling

  /** The steps threads take on their own, with no new call made. */
  ghost predicate Internal<T>(step: Step<T>) { step.Post? || step.Receive? || step.Take? }

  /** What is left to do before things are quiet. */
  function Work<T>(s: State<T>): nat {
    3 * s.toPost + 2 * (s.pending + s.buffered + s.holding) + s.waiting
  }

  lemma InternalStepsUseUpWork<T>(s: State<T>, step: Step<T>)
    requires Enabled(s, step) && Internal(step)
    ensures Work(Next(s, step)) < Work(s)
  {
  }

  /**
   * Left alone, the queue settles: no stretch of internal steps is longer than the
   * work at its start, and where none is possible every pop has been served or the
   * queue is empty.
   */
  lemma {:induction false} QueueSettles<T>(
      states: seq<State<T>>, steps: seq<Step<T>>, max: nat, capacity: nat, i: nat, k: nat)
    requires IsRun(states, steps, max, capacity) && i <= k < |states|
    requires forall j {:trigger steps[j]} :: i <= j < k ==> Internal(steps[j])
    ensures Work(states[k]) + (k - i) <= Work(states[i])
    ensures states[k].cancelling == 0 && (forall step: Step<T> :: Internal(step) ==> !Enabled(states[k], step)) ==>
              states[k].parked == 0 || states[k].items == []
    decreases k
  {
    if i < k {
      QueueSettles(states, steps, max, capacity, i, k - 1);
      InternalStepsUseUpWork(states[k - 1], steps[k - 1]);
    }
    if states[k].cancelling == 0 && forall step: Step<T> :: Internal(step) ==> !Enabled(states[k], step) {
      assert !Enabled(states[k], Post) && !Enabled(states[k], Take);
      if states[k].parked > 0 {
        NoLostWakeup(states, steps, max, capacity, k);
      }
    }
  }

  /**
   * Inside the window of a cancel the promise really is suspended: a pop can park on an
   * item whose token was cancelled.
   */
  lemma CancelWindowSuspendsThePromise<T>(item: T) returns (states: seq<State<T>>, steps: seq<Step<T>>)
    ensures IsRun(states, steps, 0, 0)
    ensures var s := states[|steps|]; s.cancelling > 0 && Quiescent(s) && s.parked > 0 && s.items == [item]
  {
    steps := [Push(item), Post, CancelChannel, BeginPop, Receive];
    var s0: State<T> := New(0, 0);
    var s1 := Next(s0, Push(item));
    var s2 := Next(s1, Post);
    var s3 := Next(s2, CancelChannel);
    var s4 := Next(s3, BeginPop);
    states := [s0, s1, s2, s3, s4, Next(s4, Receive)];
  }

  /**
   * And there the published identity falls short: between the drain and the count of a
   * cancel an item is neither delivered, nor queued, nor among the drops yet.
   */
  lemma CancelWindowBreaksTheIdentity<T>(item: T) returns (states: seq<State<T>>, steps: seq<Step<T>>)
    ensures IsRun(states, steps, 0, 0)
    ensures var s := states[|steps|]; |s.pushed| > DeliveredCount(s.gone) + s.drops + |s.items|
  {
    steps := [Push(item), CancelChannel, Drain];
    var s0: State<T> := New(0, 0);
    var s1 := Next(s0, Push(item));
    var s2 := Next(s1, CancelChannel);
    states := [s0, s1, s2, Next(s2, Drain)];
    AccountingIsExact(states, steps, 0, 0, 3);
    assert states[3].stranded[..0] == [];
  }

  // ------------------------------------------------------------ the critical sections

  /** The fields the mutex guards, and the code that runs while it is held. */
  class GuardedQueue<T> {
    const capacity: nat
    var items: seq<T>
    var drops: nat

    constructor (capacity: nat)
      ensures Matches(New(0, capacity))
    {
      this.capacity := capacity;
      items, drops := [], 0;
    }

    /** s is a global state whose guarded part these fields are. */
    ghost predicate Matches(s: State<T>)
      reads this
    {
      s.capacity == capacity && s.items == items && s.drops == drops
    }

    /** push() up to the end of its lock scope; the answer says whether a token has to be sent. */
    method PushLocked(item: T, ghost s: State<T>) returns (tokenNeeded: bool)
      requires Matches(s)
      modifies this
      ensures Matches(PushStep(s, item))
      ensures PushStep(s, item).toPost == s.toPost + if tokenNeeded then 1 else 0
    {
      tokenNeeded := true;
      if capacity != 0 && |items| >= capacity {
        items := items[1..];
        drops := drops + 1;
        tokenNeeded := false;
      }
      items := items + [item];
    }

    /** The lock scope of pop(), entered with a token in hand. */
    method TakeLocked(ghost s: State<T>) returns (item: Option<T>)
      requires Matches(s) && s.holding > 0
      modifies this
      ensures Matches(TakeStep(s))
      ensures TakeStep(s).gone == if item.Some? then s.gone + [Delivered(item.value)] else s.gone
      ensures item.None? <==> TakeStep(s).waiting > s.waiting
    {
      item := None;
      if items != [] {
        item := Some(items[0]);
        items := items[1..];
      }
    }

    /** The lock scope of cancel(), the channel already cancelled. */
    method DrainLocked(ghost s: State<T>) returns (stranded: nat)
      requires Matches(s) && s.cancelling > 0
      modifies this`items
      ensures Matches(Next(s, Drain))
      ensures Next(s, Drain).stranded == s.stranded + [stranded]
    {
      stranded := 0;
      while items != []
        invariant stranded + |items| == |s.items|
        decreases |items|
      {
        items := items[1..];
        stranded := stranded + 1;
      }
    }
  }
}

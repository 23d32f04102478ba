/** Reference counters: any sequence of stores, increments and decrements of one
    block, on the bytes of its file. */
module Counters {
  import opened Bytes
  import opened Os
  import opened Storage

  datatype Event = Store | Increment | Decrement

  /** The files after one call that no failure or short write disturbs. */
  function Apply(files: Files, path: string, data: seq<byte>, e: Event): Files {
    match e
    case Store => if path in files then files else files[path := BlockBytes(1, data)]
    case Increment => Recounted(files, path, 1, true).0
    case Decrement => Recounted(files, path, -1, true).0
  }

  /** That is what the calls do that this project has for them. */
  lemma ApplyIsCall(files: Files, path: string, data: seq<byte>, e: Event, rs: seq<Reply>, whole: bool)
    requires OnlyInterrupts(rs) && data != []
    ensures Apply(files, path, data, e)
            == match e
               case Store => StoreRun(files, path, data, rs).files
               case Increment => Recounted(files, path, 1, whole).0
               case Decrement => Recounted(files, path, -1, whole).0
  {
    hide StoreRun, BlockBytes;
    StoreRunCalm(files, path, data, rs);
  }

  function ApplyAll(files: Files, path: string, data: seq<byte>, es: seq<Event>): Files {
    if es == [] then files else Apply(ApplyAll(files, path, data, es[..|es| - 1]), path, data, es[|es| - 1])
  }

  /** The references after one event: a block is made with one, and made again
      only when it is gone, which it is when the last one is given up. */
  function Next(n: nat, e: Event): nat {
    match e
    case Store => if n == 0 then 1 else n
    case Increment => if n == 0 then 0 else n + 1
    case Decrement => if n == 0 then 0 else n - 1
  }

  /** How many references a block has after `es`, from none. */
  function Live(es: seq<Event>): nat {
    if es == [] then 0 else Next(Live(es[..|es| - 1]), es[|es| - 1])
  }

  lemma {:induction false} LiveBounded(es: seq<Event>)
    ensures Live(es) <= |es|
  {
    if es != [] {
      LiveBounded(es[..|es| - 1]);
    }
  }

  function Increments(es: seq<Event>): nat {
    if es == [] then 0 else Increments(es[..|es| - 1]) + if es[|es| - 1].Increment? then 1 else 0
  }

  function Decrements(es: seq<Event>): nat {
    if es == [] then 0 else Decrements(es[..|es| - 1]) + if es[|es| - 1].Decrement? then 1 else 0
  }

  /** One plus the increments less the decrements of the first `n` events. */
  function Balance(es: seq<Event>, n: nat): int
    requires n <= |es|
  {
    1 + Increments(es[..n]) - Decrements(es[..n])
  }

  predicate Alive(es: seq<Event>) {
    forall n :: 0 <= n <= |es| ==> Balance(es, n) > 0
  }

  /** One event on a block that is there. */
  lemma ApplyOne(files: Files, path: string, data: seq<byte>, e: Event, refs: int)
    requires path !in files && 0 < refs < TWO64 - 1
    ensures var refs' := match e case Store => refs case Increment => refs + 1 case Decrement => refs - 1;
            Apply(files[path := BlockBytes(refs, data)], path, data, e)
            == if refs' == 0 then files else files[path := BlockBytes(refs', data)]
  {
    hide BlockBytes;
    CounterRead(refs, data);
    assert |BlockBytes(refs, data)| >= REF_SIZE;
    assert files[path := BlockBytes(refs, data)] - {path} == files;
  }

  lemma AliveFront(es: seq<Event>)
    requires es != []
    ensures Alive(es) <==> Alive(es[..|es| - 1]) && Balance(es, |es|) > 0
  {
    var front := es[..|es| - 1];
    forall n | 0 <= n < |es|
      ensures Balance(front, n) == Balance(es, n)
    {
      assert front[..n] == es[..n];
    }
  }

  lemma BalanceLast(es: seq<Event>)
    requires es != []
    ensures Balance(es, |es|) == Balance(es[..|es| - 1], |es| - 1)
                                 + match es[|es| - 1] case Store => 0 case Increment => 1 case Decrement => -1
  {
    var front := es[..|es| - 1];
    assert es[..|es|] == es && front[..|es| - 1] == front;
  }

  lemma ApplyAbsent(files: Files, path: string, data: seq<byte>, e: Event)
    requires path !in files
    ensures Apply(files, path, data, e) == if e == Store then files[path := BlockBytes(1, data)] else files
  {
  }

  /** The files with the block at `path`, made of `n` references, if there are any. */
  function Holding(files: Files, path: string, data: seq<byte>, n: nat): Files
    requires n < TWO64
  {
    if n > 0 then files[path := BlockBytes(n, data)] else files
  }

  /** One event, whatever the count is. */
  lemma ApplyLive(files: Files, path: string, data: seq<byte>, e: Event, n: nat)
    requires path !in files && n < TWO64 - 1
    ensures Apply(Holding(files, path, data, n), path, data, e) == Holding(files, path, data, Next(n, e))
  {
    hide BlockBytes, Apply;
    if n > 0 {
      ApplyOne(files, path, data, e, n);
    } else {
      ApplyAbsent(files, path, data, e);
    }
  }

  /** For every run of stores, increments and decrements, through any number of
      removals and new creations: the block exists exactly while it has
      references, its counter is their number, its payload never changes, and no
      other file does. */
  lemma {:induction false} CounterIsBalance(files: Files, path: string, data: seq<byte>, es: seq<Event>)
    requires path !in files && |es| < TWO63
    ensures ApplyAll(files, path, data, es) == if Live(es) > 0 then files[path := BlockBytes(Live(es), data)] else files
  {
    hide BlockBytes, Apply, Next;
    if es != [] {
      var front := es[..|es| - 1];
      LiveBounded(front);
      CounterIsBalance(files, path, data, front);
      LiveBounded(es);
      ApplyLive(files, path, data, es[|es| - 1], Live(front));
    }
  }

  /** What `block_inc_ref` or `block_dec_ref` returns. */
  function Returned(files: Files, path: string, e: Event): int
    requires e != Store
  {
    Recounted(files, path, if e == Increment then 1 else -1, true).1
  }

  /** In every such run an increment or decrement returns the number of references
      that there are then, and -1 if there was no block. */
  lemma ReturnsLive(files: Files, path: string, data: seq<byte>, es: seq<Event>)
    requires path !in files && 0 < |es| < TWO63 && es[|es| - 1] != Store
    requires Live(es[..|es| - 1]) < 0x7FFF_FFFF
    ensures Returned(ApplyAll(files, path, data, es[..|es| - 1]), path, es[|es| - 1])
            == if Live(es[..|es| - 1]) > 0 then Live(es) else -1
  {
    hide BlockBytes, ApplyAll, Recounted;
    var front, last := es[..|es| - 1], es[|es| - 1];
    CounterIsBalance(files, path, data, front);
    if Live(front) > 0 {
      var delta := if last == Increment then 1 else -1;
      RecountReturns(ApplyAll(files, path, data, front), path, data, Live(front), delta, true);
    } else {
      RecountFails(files, path, if last == Increment then 1 else -1, true);
    }
  }

  /** Event `n` makes the block. */
  predicate IsCreation(es: seq<Event>, n: nat)
    requires n < |es|
  {
    es[n].Store? && Live(es[..n]) == 0
  }

  /** A life does not depend on the ones before it. */
  lemma {:induction false} LiveAfresh(es: seq<Event>, more: seq<Event>)
    requires Live(es) == 0
    ensures Live(es + more) == Live(more)
    decreases |more|
  {
    if more == [] {
      assert es + more == es;
    } else {
      var all := es + more;
      assert all[..|all| - 1] == es + more[..|more| - 1] && all[|all| - 1] == more[|more| - 1];
      LiveAfresh(es, more[..|more| - 1]);
    }
  }

  lemma {:induction false} LiveInOneLife(es: seq<Event>)
    requires Alive(es)
    ensures Live([Store] + es) == Balance(es, |es|)
  {
    hide Balance, Alive;
    if es == [] {
      assert [Store] + es == [Store] && [Store][..0] == [];
      BalanceNone();
    } else {
      var front, all := es[..|es| - 1], [Store] + es;
      assert all[..|all| - 1] == [Store] + front && all[|all| - 1] == es[|es| - 1];
      AliveFront(es);
      LiveInOneLife(front);
      AliveNow(front);
      BalanceLast(es);
    }
  }

  lemma BalanceNone()
    ensures Balance([], 0) == 1 && Alive([])
  {
  }

  /** The references of a block that exists are one plus the increments less the
      decrements since it was last created, and it has existed ever since. */
  lemma {:induction false} LiveSinceCreation(es: seq<Event>) returns (n: nat)
    requires Live(es) > 0
    ensures n < |es| && IsCreation(es, n) && Alive(es[n + 1..])
    ensures Live(es) == Balance(es[n + 1..], |es[n + 1..]|)
  {
    hide Balance, Alive;
    var front, last := es[..|es| - 1], es[|es| - 1];
    if Live(front) == 0 {
      n := |front|;
      assert es[n + 1..] == [];
      BalanceNone();
    } else {
      n := LiveSinceCreation(front);
      var since := es[n + 1..];
      assert since[..|since| - 1] == front[n + 1..] && since[|since| - 1] == last;
      assert front[..n] == es[..n];
      BalanceLast(since);
      AliveFront(since);
    }
  }

  /** The other way round: whatever came before a creation, as long as the balance
      since it stays positive the block exists and has that many references. */
  lemma CreationLives(es: seq<Event>, n: nat)
    requires n < |es| && IsCreation(es, n) && Alive(es[n + 1..])
    ensures Live(es) == Balance(es[n + 1..], |es[n + 1..]|) > 0
  {
    hide Balance, Alive;
    var since := es[n + 1..];
    assert es == es[..n] + ([Store] + since);
    LiveAfresh(es[..n], [Store] + since);
    LiveInOneLife(since);
    AliveNow(since);
  }

  /** Once gone, a block returns only by a store, and then its counter starts over
      and depends on nothing that was before. */
  lemma {:induction false} GoneUntilStored(files: Files, path: string, data: seq<byte>,
                                         es: seq<Event>, more: seq<Event>)
    requires path !in files && |es + more| < TWO63 && Live(es) == 0
    ensures ApplyAll(files, path, data, es + more) == ApplyAll(files, path, data, more)
    ensures Store !in more ==> ApplyAll(files, path, data, es + more) == files
  {
    hide ApplyAll, BlockBytes;
    CounterIsBalance(files, path, data, es + more);
    CounterIsBalance(files, path, data, more);
    LiveAfresh(es, more);
    if Store !in more {
      NeverStored(more);
    }
  }

  lemma {:induction false} NeverStored(es: seq<Event>)
    requires Store !in es
    ensures Live(es) == 0
  {
    if es != [] {
      NeverStored(es[..|es| - 1]);
    }
  }

  lemma AliveNow(es: seq<Event>)
    requires Alive(es)
    ensures Balance(es, |es|) > 0
  {
  }
}

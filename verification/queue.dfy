/**
 * The notification queue of src/queue.c: an intrusive FIFO of elements
 * and, when the owner asks for notifications, an eventfd registered with
 * the reactor whose handler calls the owner's callback.
 */
module Queue {
  import opened Sys
  import opened Util
  import opened Event

  /** The address of q_handler, the handler a notifying queue registers. */
  const Q_HANDLER: Ptr := 2

  /** `struct element`: a list node carrying a pointer. Its identity is the node. */
  class Element {
    const data: Ptr

    constructor (data: Ptr)
      ensures this.data == data
    {
      this.data := data;
    }
  }

  /** No element appears twice: a list node is linked at most once. */
  ghost predicate Distinct(s: seq<Element>)
  {
    forall i, j | 0 <= i < j < |s| :: s[i] != s[j]
  }

  /** The position of the first occurrence of `e` in `s`. */
  function IndexOf(s: seq<Element>, e: Element): (i: nat)
    requires e in s
    ensures i < |s| && s[i] == e && e !in s[..i]
  {
    if s[0] == e then 0 else 1 + IndexOf(s[1..], e)
  }

  /** `s` with its first occurrence of `e` unlinked. */
  function Remove(s: seq<Element>, e: Element): (r: seq<Element>)
  {
    if s == [] then []
    else if s[0] == e then s[1..]
    else [s[0]] + Remove(s[1..], e)
  }

  /**
   * Unlinking removes exactly `e`: what is left is the elements before it
   * followed by the elements after it, in their order.
   */
  lemma {:induction false} RemoveSlice(s: seq<Element>, e: Element)
    requires e in s
    ensures Remove(s, e) == s[..IndexOf(s, e)] + s[IndexOf(s, e) + 1..]
    ensures |Remove(s, e)| == |s| - 1
    decreases |s|
  {
    if s[0] != e {
      RemoveSlice(s[1..], e);
      assert s[..IndexOf(s, e)] == [s[0]] + s[1..][..IndexOf(s[1..], e)];
      assert s[IndexOf(s, e) + 1..] == s[1..][IndexOf(s[1..], e) + 1..];
    }
  }

  /** In a list without duplicates, unlinking `e` leaves a list without duplicates and without `e`. */
  lemma RemoveDistinct(s: seq<Element>, e: Element)
    requires e in s && Distinct(s)
    ensures Distinct(Remove(s, e)) && e !in Remove(s, e)
    ensures forall x :: x in Remove(s, e) ==> x in s
  {
    RemoveSlice(s, e);
    var i := IndexOf(s, e);
    var r := Remove(s, e);
    forall a, b | 0 <= a < b < |r|
      ensures r[a] != r[b]
    {
      var a' := if a < i then a else a + 1;
      var b' := if b < i then b else b + 1;
      assert r[a] == s[a'] && r[b] == s[b'];
    }
    forall k | 0 <= k < |r|
      ensures r[k] != e && r[k] in s
    {
      var k' := if k < i then k else k + 1;
      assert r[k] == s[k'] && k' != i;
    }
  }

  /** Unlinking the head of a list is dropping it. */
  lemma RemoveHead(s: seq<Element>)
    requires s != []
    ensures Remove(s, s[0]) == s[1..]
  {
  }

  /** `struct queue`. `efd` is null when no notification callback was given. */
  class NotifyQueue {
    /** The struct's own address: the `data` register_event stores. */
    const id: Ptr
    var pending: seq<Element>
    const efd: EventFd?
    const notifyCallback: Ptr
    const data: Ptr
    const limit: int
    /** The argument of every notify_callback call so far. */
    var notified: seq<Ptr>

    ghost predicate Valid()
      reads this
    {
      && Distinct(pending)
      && (efd == null <==> notifyCallback == NULL)
    }

    constructor (id: Ptr, efd: EventFd?, notifyCallback: Ptr, data: Ptr, limit: int)
      requires efd == null <==> notifyCallback == NULL
      ensures Valid() && pending == [] && notified == []
      ensures this.id == id && this.efd == efd && this.notifyCallback == notifyCallback
      ensures this.data == data && this.limit == limit
    {
      this.id := id;
      this.efd := efd;
      this.notifyCallback := notifyCallback;
      this.data := data;
      this.limit := limit;
      pending := [];
      notified := [];
    }

    /** q_empty. */
    function QEmpty(): (r: bool)
      reads this
      ensures r <==> |pending| == 0
    {
      pending == []
    }

    /** q_add: link `e` at the tail. */
    method QAdd(e: Element)
      requires Valid() && e !in pending
      modifies this
      ensures Valid() && pending == old(pending) + [e] && !QEmpty()
      ensures notified == old(notified)
    {
      pending := pending + [e];
    }

    /** q_first_entry: the oldest element of a non-empty queue. */
    method QFirstEntry() returns (e: Element)
      requires pending != []
      ensures e == pending[0] && e in pending
      ensures Distinct(pending) ==> e !in pending[1..]
    {
      e := pending[0];
    }

    /** q_del: unlink `e`; the other elements keep their order. */
    method QDel(e: Element)
      requires Valid() && e in pending
      modifies this
      ensures Valid() && pending == Remove(old(pending), e)
      ensures |pending| == |old(pending)| - 1 && e !in pending
      ensures notified == old(notified)
    {
      RemoveSlice(pending, e);
      RemoveDistinct(pending, e);
      pending := Remove(pending, e);
    }

    /**
     * q_handler: read (and reset) the eventfd, then call notify_callback
     * with the queue's data once, whatever the read returned. A read that
     * panics ends the process and one that blocks never returns, so the
     * callback runs only when the read returns.
     */
    method QHandler(faults: seq<Errno>) returns (c: Call<int>)
      requires Valid() && efd != null && efd.Valid()
      modifies this, efd
      ensures Valid() && efd.Valid() && pending == old(pending)
      ensures c.Returned? ==> notified == old(notified) + [data]
      ensures !c.Returned? ==> notified == old(notified)
      ensures var n := LeadingEintr(faults);
        n == |faults| && old(efd.counter) > 0 ==> c == Returned(ToInt32(old(efd.counter)), n) && efd.counter == 0
    {
      c := EventfdXRead(efd, faults);
      if c.Returned? {
        notified := notified + [data];
      }
    }
  }

  /**
   * q_init: an empty queue with the given limit (stored as a C int),
   * callback and data. With a callback, a blocking eventfd is opened
   * (`efdResult`, -1 on failure) and registered with q_handler and the
   * queue as data; either failure aborts the process (None).
   */
  method QInit(id: Ptr, limit: nat, notifyCallback: Ptr, data: Ptr,
               reactor: Reactor, efdResult: Fd, refused: bool) returns (q: Option<NotifyQueue>)
    requires reactor.Valid() && limit < UINT_LIMIT
    modifies reactor
    ensures reactor.Valid()
    ensures q.Some? ==> fresh(q.value) && q.value.Valid() && q.value.pending == [] && q.value.QEmpty()
    ensures q.Some? ==> q.value.limit == ToInt32(limit) && q.value.notifyCallback == notifyCallback && q.value.data == data
    ensures notifyCallback == NULL ==> q.Some? && q.value.efd == null && reactor.registry == old(reactor.registry)
    ensures notifyCallback != NULL ==>
      && (q.Some? <==> efdResult != -1 && efdResult !in old(reactor.registry) && !refused)
      && (q.Some? ==>
            && fresh(q.value.efd) && q.value.efd.counter == 0 && !q.value.efd.nonblocking
            && efdResult in reactor.registry
            && reactor.registry[efdResult].handler == Q_HANDLER
            && reactor.registry[efdResult].data == id)
  {
    if notifyCallback == NULL {
      var nq := new NotifyQueue(id, null, notifyCallback, data, ToInt32(limit));
      return Some(nq);
    }
    if efdResult == -1 {
      return None;
    }
    var counter := new EventFd(0, false);
    var nq := new NotifyQueue(id, counter, notifyCallback, data, ToInt32(limit));
    var r := reactor.Register(efdResult, Q_HANDLER, id, refused);
    if r < 0 {
      return None;
    }
    return Some(nq);
  }

  /**
   * FIFO round trip: adding `es` to an empty queue and then taking the
   * first entry and deleting it until the queue is empty yields `es` in
   * order.
   */
  method AddThenDrain(q: NotifyQueue, es: seq<Element>) returns (out: seq<Element>)
    requires q.Valid() && q.pending == [] && Distinct(es)
    modifies q
    ensures out == es && q.pending == [] && q.Valid()
  {
    var i := 0;
    while i < |es|
      invariant 0 <= i <= |es| && q.Valid() && q.pending == es[..i]
    {
      assert es[i] !in es[..i];
      q.QAdd(es[i]);
      assert es[..i + 1] == es[..i] + [es[i]];
      i := i + 1;
    }
    out := [];
    while !q.QEmpty()
      invariant q.Valid() && out + q.pending == es
      decreases |q.pending|
    {
      ghost var before := q.pending;
      var e := q.QFirstEntry();
      RemoveHead(before);
      q.QDel(e);
      out := out + [e];
    }
  }
}

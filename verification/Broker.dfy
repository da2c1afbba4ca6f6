/**
 The message broker (src/external_agent_cci/wlan_ext_emu_msg_mgr.cpp and, line for
 line the same, src/messages/wlan_emu_msg_mgr.cpp): tests subscribe, and every
 message is copied into the queue of each listed test.
 */
module Broker {
  import opened Collection

  /** Where the objects do not matter, tests are numbers. */
  type TestId = nat

  ghost predicate Distinct<T>(s: seq<T>) {
    forall i, j :: 0 <= i < j < |s| ==> s[i] != s[j]
  }

  // ---------- Specification ----------

  /** The position of the first listing of test t; |list| when there is none. */
  function FirstListing<T(==)>(list: seq<T>, t: T): (i: nat)
    ensures i <= |list|
    ensures i < |list| ==> list[i] == t
    ensures forall j :: 0 <= j < i ==> list[j] != t
  {
    ListingFrom(list, t, 0)
  }

  function ListingFrom<T(==)>(list: seq<T>, t: T, from: nat): (i: nat)
    requires from <= |list|
    ensures from <= i <= |list|
    ensures i < |list| ==> list[i] == t
    ensures forall j :: from <= j < i ==> list[j] != t
    decreases |list| - from
  {
    if from == |list| || list[from] == t then from else ListingFrom(list, t, from + 1)
  }

  /** unsubscribe: forgets the first listing the scan meets, if it meets one. */
  function Unlisted<T(==)>(list: seq<T>, t: T): seq<T> {
    var i := FirstListing(Visited(list), t);
    if i < |Visited(list)| then Without(list, i) else list
  }

  /**
   The queue of test t, oldest message first, once the copies made for a list of tests,
   one per listing, have been handed out in order.
   */
  function Delivered<T(==), C>(queue: seq<C>, list: seq<T>, copies: seq<C>, t: T): (r: seq<C>)
    requires |copies| == |list|
  {
    if list == [] then queue
    else
      var last := |list| - 1;
      var r := Delivered(queue, list[..last], copies[..last], t);
      if list[last] == t then r + [copies[last]] else r
  }

  lemma DeliveredStep<T, C>(queue: seq<C>, list: seq<T>, i: nat, copies: seq<C>, copy: C, t: T)
    requires |copies| == i < |list|
    ensures var r := Delivered(queue, list[..i], copies, t);
            Delivered(queue, list[..i + 1], copies + [copy], t) == if list[i] == t then r + [copy] else r
  {
    assert list[..i + 1][..i] == list[..i] && (copies + [copy])[..i] == copies;
  }

  // ---------- The objects ----------

  /** wlan_emu_msg_t; the copy constructor copies m_msg and leaves msg_name as it is. */
  class Message<D> {
    var data: D
    var name: string

    constructor (data: D)
      ensures this.data == data
    {
      this.data := data;
    }

    constructor Copy(msg: Message<D>)
      ensures data == msg.data
    {
      data := msg.data;
    }
  }

  /** The part of wlan_ext_emu_tests_t the broker touches: the queue of messages to handle. */
  class TestCase<D> {
    const inbox: Queue<Message<D>>

    ghost predicate Valid()
      reads this, inbox, inbox.Repr
    {
      inbox.Valid() && this !in inbox.Repr
    }

    /** The queued messages, oldest first. */
    ghost function Pending(): seq<Message<D>>
      reads this, inbox
    {
      Reversed(inbox.Contents)
    }

    constructor ()
      ensures Valid() && fresh(inbox.Repr) && Pending() == []
    {
      inbox := new Queue();
    }

    method PushMsg(msg: Message<D>)
      requires Valid()
      modifies inbox.Repr
      ensures Valid() && fresh(inbox.Repr - old(inbox.Repr))
      ensures Pending() == old(Pending()) + [msg]
    {
      ReversedPush(msg, inbox.Contents);
      inbox.Push(msg);
    }

    /** Takes the oldest message; None when there is none. */
    method PopMsg() returns (msg: Option<Message<D>>)
      requires Valid()
      modifies inbox.Repr
      ensures Valid() && inbox.Repr == old(inbox.Repr)
      ensures Counted(old(|inbox.Contents|)) == 0 ==> msg == None && Pending() == old(Pending())
      ensures Counted(old(|inbox.Contents|)) != 0 ==>
                msg == Some(old(Pending())[0]) && Pending() == old(Pending())[1..]
    {
      var count := inbox.Count();
      if count == 0 {
        return None;
      }
      ReversedPop(inbox.Contents);
      msg := inbox.Pop();
    }
  }

  /** Tests with queues of their own, none of which shares an object with another. */
  ghost predicate Separate<D>(tests: seq<TestCase<D>>)
    reads tests, set t | t in tests :: t.inbox, set t, o | t in tests && o in t.inbox.Repr :: o
  {
    && (forall t :: t in tests ==> t.Valid())
    && (forall s, t :: s in tests && t in tests && s != t ==> s.inbox.Repr !! t.inbox.Repr)
    && (forall s, t :: s in tests && t in tests ==> s !in t.inbox.Repr)
  }

  /** wlan_ext_emu_msg_mgr_t */
  class MsgManager<D> {
    const tests: Queue<TestCase<D>>

    ghost predicate Valid()
      reads this, tests, tests.Repr
    {
      tests.Valid() && this !in tests.Repr
    }

    /** The listed tests, most recent subscription first; a test may be listed more than once. */
    ghost function List(): seq<TestCase<D>>
      reads this, tests
    {
      tests.Contents
    }

    constructor ()
      ensures Valid() && fresh(tests.Repr) && List() == []
    {
      tests := new Queue();
    }

    method Subscribe(test: TestCase<D>)
      requires Valid()
      modifies tests.Repr
      ensures Valid() && fresh(tests.Repr - old(tests.Repr))
      ensures List() == [test] + old(List())
    {
      tests.Push(test);
    }

    method Unsubscribe(test: TestCase<D>)
      requires Valid()
      modifies tests.Repr
      ensures Valid() && tests.Repr == old(tests.Repr)
      ensures List() == Unlisted(old(List()), test)
    {
      var count := tests.Count();
      VisitedInRange(|List()|);
      var i := 0;
      while i < count
        invariant 0 <= i <= count
        invariant Valid() && tests.Repr == old(tests.Repr) && List() == old(List())
        invariant forall j :: 0 <= j < i ==> List()[j] != test
      {
        var elem := tests.Peek(i);
        if elem == Some(test) {
          assert FirstListing(Visited(List()), test) == i;
          var _ := tests.Remove(i);
          return;
        }
        i := i + 1;
      }
    }

    /** No queue of a listed test shares an object with another or with the list. */
    ghost predicate Ready()
      reads this, tests, tests.Repr, tests.Contents
      reads set t | t in List() :: t.inbox, set t, o | t in List() && o in t.inbox.Repr :: o
    {
      && Valid()
      && Separate(List())
      && (forall t :: t in List() ==> t.inbox.Repr !! tests.Repr)
    }

    /** The message is no part of any queue's own structure. */
    ghost predicate Apart(msg: Message<D>)
      reads this, tests, tests.Contents, set t | t in List() :: t.inbox
    {
      forall t :: t in List() ==> msg !in t.inbox.Repr
    }

    /** Makes a copy of the message and appends it to one listed test's queue. */
    method HandCopy(elem: TestCase<D>, msg: Message<D>) returns (copy: Message<D>)
      requires Ready() && Apart(msg) && elem in List()
      modifies elem.inbox.Repr
      ensures List() == old(List()) && Ready()
      ensures fresh(copy) && Apart(copy) && copy.data == msg.data
      ensures elem.Pending() == old(elem.Pending()) + [copy]
      ensures forall o :: o in elem.inbox.Repr ==> o in old(elem.inbox.Repr) || fresh(o)
      ensures forall t :: t in List() && t != elem ==> unchanged(t.inbox) && t.Pending() == old(t.Pending())
    {
      copy := new Message.Copy(msg);
      elem.PushMsg(copy);
    }

    /** One round of the loop of queue_msg. */
    method HandNext(i: uint32, msg: Message<D>) returns (copy: Message<D>)
      requires Ready() && Apart(msg) && i < Counted(|List()|)
      modifies List()[i].inbox.Repr
      ensures List() == old(List()) && Ready()
      ensures fresh(copy) && Apart(copy) && copy.data == msg.data
      ensures List()[i].Pending() == old(List()[i].Pending()) + [copy]
      ensures forall o :: o in List()[i].inbox.Repr ==> o in old(List()[i].inbox.Repr) || fresh(o)
      ensures forall t :: t in List() && t != List()[i] ==> unchanged(t.inbox) && t.Pending() == old(t.Pending())
    {
      VisitedInRange(|List()|);
      var elem := tests.Peek(i);
      copy := HandCopy(elem.value, msg);
    }

    /** Each listed test's queue is the given one with its share of these copies of the data appended. */
    ghost predicate HandedOut(data: D, copies: seq<Message<D>>, queues: map<TestCase<D>, seq<Message<D>>>)
      reads this, tests, tests.Contents, set t | t in List() :: t.inbox, copies
    {
      && |copies| <= |List()|
      && (forall k :: 0 <= k < |copies| ==> copies[k].data == data && Apart(copies[k]))
      && Distinct(copies)
      && (forall t :: t in List() ==>
            t in queues && t.Pending() == Delivered(queues[t], List()[..|copies|], copies, t))
    }

    /** The same round, seen from what has been handed out so far. */
    method HandRound(i: uint32, msg: Message<D>, ghost copies: seq<Message<D>>,
                     ghost queues: map<TestCase<D>, seq<Message<D>>>)
      returns (copy: Message<D>)
      requires Ready() && Apart(msg) && HandedOut(msg.data, copies, queues)
      requires |copies| == i && i < Counted(|List()|)
      modifies List()[i].inbox.Repr
      ensures List() == old(List()) && Ready() && Apart(msg) && msg.data == old(msg.data)
      ensures fresh(copy)
      ensures HandedOut(msg.data, copies + [copy], queues)
      ensures forall t, o :: t in List() && o in t.inbox.Repr ==> o in old(t.inbox.Repr) || fresh(o)
    {
      copy := HandNext(i, msg);
      ghost var more := copies + [copy];
      forall k | 0 <= k < i ensures more[k].data == msg.data && Apart(more[k]) {
        assert more[k] == copies[k];
      }
      forall t | t in List() ensures t.Pending() == Delivered(queues[t], List()[..i + 1], more, t) {
        DeliveredStep(queues[t], List(), i, copies, copy, t);
      }
    }

    /**
     Hands every listed test a copy of its own; copies[i] is the one made for the i-th
     listing. Nothing but the queues of listed tests is touched.
     */
    method QueueMsg(msg: Message<D>) returns (ghost copies: seq<Message<D>>)
      requires Ready() && Apart(msg)
      modifies set t, o | t in List() && o in t.inbox.Repr :: o
      ensures Ready() && List() == old(List()) && msg.data == old(msg.data)
      ensures Apart(msg)
      ensures |copies| == |Visited(List())| && forall i :: 0 <= i < |copies| ==> fresh(copies[i]) && Apart(copies[i])
      ensures forall i :: 0 <= i < |copies| ==> copies[i].data == msg.data
      ensures Distinct(copies)
      ensures forall t :: t in List() ==> fresh(t.inbox.Repr - old(t.inbox.Repr))
      ensures forall t :: t in List() ==> t.Pending() == Delivered(old(t.Pending()), Visited(List()), copies, t)
    {
      copies := [];
      ghost var queues := map t | t in List() :: t.Pending();
      var count := tests.Count();
      var i := 0;
      while i < count
        invariant 0 <= i <= count && |copies| == i
        invariant Ready() && Apart(msg) && List() == old(List()) && msg.data == old(msg.data)
        invariant forall k :: 0 <= k < i ==> fresh(copies[k])
        invariant HandedOut(msg.data, copies, queues)
        invariant forall t, o :: t in List() && o in t.inbox.Repr ==> o in old(t.inbox.Repr) || fresh(o)
      {
        var copy := HandRound(i, msg, copies, queues);
        assert forall k :: 0 <= k < i ==> fresh(copies[k]);
        copies := copies + [copy];
        i := i + 1;
      }
    }
  }
}

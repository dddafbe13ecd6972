/** The five read-only queries of the registry: the counter, the full ascending
    listing of the store, and the listing filtered by owner, topic or id. */
module Queries {
  import opened State
  import opened Sequences
  import Storage

  /** The registry's invariant over the counter and the store: the keys are
      exactly `0 .. counter-1` and every record's id equals its key. */
  ghost predicate Consistent(counter: nat, store: map<U128, Message>)
  {
    && counter <= U128_LIMIT
    && Storage.IsKeyRange(store.Keys, 0, counter)
    && forall k :: k in store ==> store[k].id == k
  }

  /** `query_all_messages`: every stored record, in ascending key order. */
  function AllMessages(store: map<U128, Message>): (r: seq<Message>)
    ensures |r| == |store|
  {
    var keys := Storage.SortedKeys(store.Keys);
    assert |store| == |store.Keys|;
    seq(|keys|, i requires 0 <= i < |keys| => store[keys[i]])
  }

  /** Every entry of the listing is a stored record. */
  lemma AllMessagesSound(store: map<U128, Message>)
    ensures forall x :: x in AllMessages(store) ==> x in store.Values
  {
    var keys := Storage.SortedKeys(store.Keys);
    forall x | x in AllMessages(store) ensures x in store.Values {
      var i :| 0 <= i < |AllMessages(store)| && AllMessages(store)[i] == x;
      assert keys[i] in store;
    }
  }

  /** Every stored record appears in the listing. */
  lemma AllMessagesComplete(store: map<U128, Message>)
    ensures forall k :: k in store ==> store[k] in AllMessages(store)
  {
    var keys := Storage.SortedKeys(store.Keys);
    forall k | k in store ensures store[k] in AllMessages(store) {
      var i :| 0 <= i < |keys| && keys[i] == k;
      assert AllMessages(store)[i] == store[k];
    }
  }

  /** The filter predicates of the three filtered queries: exact equality on one field. */
  function OwnerIs(address: string): Message -> bool
  {
    (x: Message) => x.owner == address
  }

  function TopicIs(topic: string): Message -> bool
  {
    (x: Message) => x.topic == topic
  }

  function IdIs(id: U128): Message -> bool
  {
    (x: Message) => x.id == id
  }

  /** `query_messages_by_addr`: the records whose owner is `address`, in listing order. */
  function MessagesByAddr(store: map<U128, Message>, address: string): (r: seq<Message>)
    ensures IsSubsequence(r, AllMessages(store))
    ensures forall i :: 0 <= i < |r| ==> r[i].owner == address
  {
    var p := OwnerIs(address);
    FilterIsSubsequence(AllMessages(store), p);
    Filter(AllMessages(store), p)
  }

  /** By-address holds exactly the listed records whose owner is `address`,
      and therefore every stored record with that owner. */
  lemma ByAddrMembers(store: map<U128, Message>, address: string)
    ensures forall x :: x in MessagesByAddr(store, address) <==> x in AllMessages(store) && x.owner == address
    ensures MessagesByAddr(store, address) == [] <==> forall x :: x in AllMessages(store) ==> x.owner != address
    ensures forall k :: k in store && store[k].owner == address ==> store[k] in MessagesByAddr(store, address)
  {
    FilterMembers(AllMessages(store), OwnerIs(address));
    AllMessagesComplete(store);
  }

  /** `query_messages_by_topic`: the records whose topic is `topic`, in listing order. */
  function MessagesByTopic(store: map<U128, Message>, topic: string): (r: seq<Message>)
    ensures IsSubsequence(r, AllMessages(store))
    ensures forall i :: 0 <= i < |r| ==> r[i].topic == topic
  {
    var p := TopicIs(topic);
    FilterIsSubsequence(AllMessages(store), p);
    Filter(AllMessages(store), p)
  }

  /** By-topic holds exactly the listed records whose topic is `topic`,
      and therefore every stored record with that topic. */
  lemma ByTopicMembers(store: map<U128, Message>, topic: string)
    ensures forall x :: x in MessagesByTopic(store, topic) <==> x in AllMessages(store) && x.topic == topic
    ensures MessagesByTopic(store, topic) == [] <==> forall x :: x in AllMessages(store) ==> x.topic != topic
    ensures forall k :: k in store && store[k].topic == topic ==> store[k] in MessagesByTopic(store, topic)
  {
    FilterMembers(AllMessages(store), TopicIs(topic));
    AllMessagesComplete(store);
  }

  /** `query_messages_by_id`: the records whose id is `id`, in listing order. */
  function MessagesById(store: map<U128, Message>, id: U128): (r: seq<Message>)
    ensures IsSubsequence(r, AllMessages(store))
    ensures forall i :: 0 <= i < |r| ==> r[i].id == id
  {
    var p := IdIs(id);
    FilterIsSubsequence(AllMessages(store), p);
    Filter(AllMessages(store), p)
  }

  /** By-id holds exactly the listed records whose id is `id`. */
  lemma ByIdMembers(store: map<U128, Message>, id: U128)
    ensures forall x :: x in MessagesById(store, id) <==> x in AllMessages(store) && x.id == id
    ensures MessagesById(store, id) == [] <==> forall x :: x in AllMessages(store) ==> x.id != id
  {
    FilterMembers(AllMessages(store), IdIs(id));
    AllMessagesComplete(store);
  }

  /** Under the invariant the listing is `store[0], ..., store[counter-1]`: exactly
      `counter` records, and the record at position `i` has id `i`. */
  lemma AllMessagesInOrder(counter: nat, store: map<U128, Message>)
    requires Consistent(counter, store)
    ensures |AllMessages(store)| == counter
    ensures forall i :: 0 <= i < counter ==> AllMessages(store)[i] == store[i]
    ensures forall i :: 0 <= i < counter ==> AllMessages(store)[i].id == i
  {
    var keys := Storage.SortedKeys(store.Keys);
    Storage.SortedKeysOfRange(store.Keys, 0, counter);
    var all := AllMessages(store);
    forall i | 0 <= i < counter
      ensures all[i] == store[i] && all[i].id == i
    {
      assert keys[i] == i;
      assert (i as U128) in store;
      assert all[i] == store[keys[i]];
    }
  }

  /** A fresh store satisfies the invariant for counter 0 and lists nothing. */
  lemma EmptyStore()
    ensures Consistent(0, map[])
    ensures AllMessages(map[]) == []
  {
  }

  /** Storing the record with id `counter` under key `counter` keeps the invariant
      for the counter one higher. */
  lemma AddKeepsConsistent(counter: nat, store: map<U128, Message>, msg: Message)
    requires Consistent(counter, store)
    requires counter < U128_LIMIT && msg.id == counter
    ensures Consistent(counter + 1, store[counter := msg])
  {
    var store' := store[counter := msg];
    forall k: U128 ensures k in store'.Keys <==> 0 <= k < counter + 1 {
      assert k in store'.Keys <==> k == counter || k in store.Keys;
    }
  }

  /** The records stored under keys `0 .. n-1`, in key order. */
  ghost function Prefix(store: map<U128, Message>, n: nat): seq<Message>
    requires n <= U128_LIMIT
    requires forall k: U128 :: k < n ==> k in store
    decreases n
  {
    if n == 0 then [] else Prefix(store, n - 1) + [store[(n - 1) as U128]]
  }

  lemma {:induction false} PrefixAt(store: map<U128, Message>, n: nat)
    requires n <= U128_LIMIT
    requires forall k: U128 :: k < n ==> k in store
    ensures |Prefix(store, n)| == n
    ensures forall i :: 0 <= i < n ==> Prefix(store, n)[i] == store[i]
  {
    if n > 0 {
      PrefixAt(store, n - 1);
    }
  }

  /** Two stores that agree on the keys below `n` have the same prefix. */
  lemma {:induction false} PrefixAgree(s: map<U128, Message>, t: map<U128, Message>, n: nat)
    requires n <= U128_LIMIT
    requires forall k: U128 :: k < n ==> k in s && k in t && s[k] == t[k]
    ensures Prefix(s, n) == Prefix(t, n)
  {
    if n > 0 {
      PrefixAgree(s, t, n - 1);
    }
  }

  /** Under the invariant the listing is the prefix of length `counter`. */
  lemma AllMessagesIsPrefix(counter: nat, store: map<U128, Message>)
    requires Consistent(counter, store)
    ensures AllMessages(store) == Prefix(store, counter)
  {
    AllMessagesInOrder(counter, store);
    PrefixAt(store, counter);
  }

  /** Adding the record with id `counter` under key `counter` appends exactly
      that record to the listing. */
  lemma AddExtendsListing(counter: nat, store: map<U128, Message>, msg: Message)
    requires Consistent(counter, store)
    requires counter < U128_LIMIT && msg.id == counter
    ensures AllMessages(store[counter := msg]) == AllMessages(store) + [msg]
  {
    var store' := store[counter := msg];
    AddKeepsConsistent(counter, store, msg);
    AllMessagesIsPrefix(counter, store);
    AllMessagesIsPrefix(counter + 1, store');
    PrefixOfAdd(counter, store, msg);
  }

  /** Storing `msg` under the next key extends the prefix by `msg`. */
  lemma PrefixOfAdd(counter: nat, store: map<U128, Message>, msg: Message)
    requires Consistent(counter, store)
    requires counter < U128_LIMIT && msg.id == counter
    ensures Consistent(counter + 1, store[counter := msg])
    ensures Prefix(store[counter := msg], counter + 1) == Prefix(store, counter) + [msg]
  {
    var store' := store[counter := msg];
    AddKeepsConsistent(counter, store, msg);
    PrefixAgree(store, store', counter);
  }

  /** After an add, by-address gains the new record at its end when the record's
      owner matches, and is otherwise unchanged. */
  lemma ByAddrAfterAdd(counter: nat, store: map<U128, Message>, msg: Message, address: string)
    requires Consistent(counter, store)
    requires counter < U128_LIMIT && msg.id == counter
    ensures MessagesByAddr(store[counter := msg], address)
      == MessagesByAddr(store, address) + if msg.owner == address then [msg] else []
  {
    AddExtendsListing(counter, store, msg);
    FilterAppend(AllMessages(store), [msg], OwnerIs(address));
    FilterSingleton(msg, OwnerIs(address));
  }

  /** After an add, by-topic gains the new record at its end when the record's
      topic matches, and is otherwise unchanged. */
  lemma ByTopicAfterAdd(counter: nat, store: map<U128, Message>, msg: Message, topic: string)
    requires Consistent(counter, store)
    requires counter < U128_LIMIT && msg.id == counter
    ensures MessagesByTopic(store[counter := msg], topic)
      == MessagesByTopic(store, topic) + if msg.topic == topic then [msg] else []
  {
    AddExtendsListing(counter, store, msg);
    FilterAppend(AllMessages(store), [msg], TopicIs(topic));
    FilterSingleton(msg, TopicIs(topic));
  }

  /** After an add, by-id gains the new record at its end when the record's id
      matches, and is otherwise unchanged. */
  lemma ByIdAfterAdd(counter: nat, store: map<U128, Message>, msg: Message, id: U128)
    requires Consistent(counter, store)
    requires counter < U128_LIMIT && msg.id == counter
    ensures MessagesById(store[counter := msg], id)
      == MessagesById(store, id) + if msg.id == id then [msg] else []
  {
    AddExtendsListing(counter, store, msg);
    FilterAppend(AllMessages(store), [msg], IdIs(id));
    FilterSingleton(msg, IdIs(id));
  }

  /** In a listing where position `i` holds id `i`, filtering the first `k`
      records by id `id` keeps the record at position `id`, if it is among them. */
  lemma {:induction false} FilterPrefixById(all: seq<Message>, id: U128, k: nat)
    requires forall i :: 0 <= i < |all| ==> all[i].id == i
    requires k <= |all|
    ensures Filter(all[..k], IdIs(id)) == if id < k then [all[id]] else []
    decreases k
  {
    var p := IdIs(id);
    if k == 0 {
      assert all[..0] == [];
    } else {
      FilterPrefixById(all, id, k - 1);
      assert all[..k] == all[..k - 1] + [all[k - 1]];
      FilterAppend(all[..k - 1], [all[k - 1]], p);
      FilterSingleton(all[k - 1], p);
    }
  }

  /** Under the invariant, by-id returns the one record with that id when it is
      below the counter, and nothing otherwise: never more than one record. */
  lemma MessagesByIdExact(counter: nat, store: map<U128, Message>, id: U128)
    requires Consistent(counter, store)
    ensures MessagesById(store, id) == if id < counter then [store[id]] else []
    ensures |MessagesById(store, id)| <= 1
  {
    var all := AllMessages(store);
    AllMessagesInOrder(counter, store);
    FilterPrefixById(all, id, counter);
    assert all[..counter] == all;
    assert MessagesById(store, id) == Filter(all, IdIs(id));
    if id < counter {
      assert all[id] == store[id];
    }
  }
}

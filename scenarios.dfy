/** The scenarios of the contract's unit tests, replayed against the model:
    what each scenario checks follows from the contracts of `Contract` and
    `Queries`. */
module Scenarios {
  import opened State
  import opened Queries
  import opened Contract
  import Decimal

  /** Instantiate, then add two messages from one sender: the responses carry
      the ids "0" and "1", and the counter and the listing follow. */
  method AddTwoMessages(sender: string)
    returns (first: Result<Response>, idAfterFirst: QueryResponse,
             second: Result<Response>, listed: QueryResponse)
    ensures first == Ok(Response([
      Attribute("execute", "add message"),
      Attribute("message id", "0"),
      Attribute("topic", "some funny topic"),
      Attribute("message text", "ha ha, that's very funny")]))
    ensures idAfterFirst == CurrentIdResponse(1)
    ensures second == Ok(Response([
      Attribute("execute", "add message"),
      Attribute("message id", "1"),
      Attribute("topic", "funniest topic"),
      Attribute("message text", "that's even better than before!")]))
    ensures listed.MessagesResponse? && |listed.messages| == 2
  {
    var registry := new Registry.Instantiate();
    first := registry.AddMessage(sender, "some funny topic", "ha ha, that's very funny");
    assert Decimal.NatToString(0) == "0";
    idAfterFirst := registry.Query(GetCurrentId);
    second := registry.AddMessage(sender, "funniest topic", "that's even better than before!");
    assert Decimal.NatToString(1) == "1";
    listed := registry.Query(GetAllMessage);
  }

  /** Two adds from `sender`: by-address `other` finds nothing yet. */
  lemma TwoFromSender(sender: string, other: string, topic: string, text: string,
                      s0: map<U128, Message>, s1: map<U128, Message>, s2: map<U128, Message>)
    requires sender != other
    requires s0 == map[]
    requires s1 == s0[0 := Message(0, sender, topic, text)]
    requires s2 == s1[1 := Message(1, sender, topic, text)]
    ensures Consistent(2, s2)
    ensures MessagesByAddr(s2, other) == []
  {
    var m0, m1 := Message(0, sender, topic, text), Message(1, sender, topic, text);
    EmptyStore();
    AddKeepsConsistent(0, s0, m0);
    AddKeepsConsistent(1, s1, m1);
    ByAddrAfterAdd(0, s0, m0, other);
    assert MessagesByAddr(s1, other) == [];
    ByAddrAfterAdd(1, s1, m1, other);
  }

  /** Three adds, two from `sender` and then one from `other`: three records
      are listed and by-address `other` finds only the last. */
  lemma ByOwnerScenario(sender: string, other: string, topic: string, text: string,
                        s0: map<U128, Message>, s1: map<U128, Message>,
                        s2: map<U128, Message>, s3: map<U128, Message>)
    requires sender != other
    requires s0 == map[]
    requires s1 == s0[0 := Message(0, sender, topic, text)]
    requires s2 == s1[1 := Message(1, sender, topic, text)]
    requires s3 == s2[2 := Message(2, other, topic, text)]
    ensures |AllMessages(s3)| == 3
    ensures MessagesByAddr(s3, other) == [Message(2, other, topic, text)]
  {
    var m2 := Message(2, other, topic, text);
    TwoFromSender(sender, other, topic, text, s0, s1, s2);
    AddKeepsConsistent(2, s2, m2);
    AllMessagesInOrder(3, s3);
    ByAddrAfterAdd(2, s2, m2, other);
  }

  /** Three adds from `sender`, `other`, `sender`: by-id 1 finds the one
      record `other` added. */
  lemma ByIdScenario(sender: string, other: string, topic: string, text: string,
                     s0: map<U128, Message>, s1: map<U128, Message>,
                     s2: map<U128, Message>, s3: map<U128, Message>)
    requires s0 == map[]
    requires s1 == s0[0 := Message(0, sender, topic, text)]
    requires s2 == s1[1 := Message(1, other, topic, text)]
    requires s3 == s2[2 := Message(2, sender, topic, text)]
    ensures |MessagesById(s3, 1)| == 1 && MessagesById(s3, 1)[0].owner == other
  {
    EmptyStore();
    AddKeepsConsistent(0, s0, Message(0, sender, topic, text));
    AddKeepsConsistent(1, s1, Message(1, other, topic, text));
    AddKeepsConsistent(2, s2, Message(2, sender, topic, text));
    MessagesByIdExact(3, s3, 1);
  }

  /** Two adds with the same topic, from `other` and then `sender`: by-topic
      finds both, `other`'s first, and the second has id 1. */
  lemma ByTopicScenario(sender: string, other: string, topic: string, text: string,
                        s0: map<U128, Message>, s1: map<U128, Message>, s2: map<U128, Message>)
    requires s0 == map[]
    requires s1 == s0[0 := Message(0, other, topic, text)]
    requires s2 == s1[1 := Message(1, sender, topic, text)]
    ensures MessagesByTopic(s2, topic) == [Message(0, other, topic, text), Message(1, sender, topic, text)]
    ensures MessagesByTopic(s2, topic)[1].id != 0 && MessagesByTopic(s2, topic)[1].id != 2
  {
    var m0, m1 := Message(0, other, topic, text), Message(1, sender, topic, text);
    EmptyStore();
    AddKeepsConsistent(0, s0, m0);
    ByTopicAfterAdd(0, s0, m0, topic);
    assert MessagesByTopic(s1, topic) == [m0];
    ByTopicAfterAdd(1, s1, m1, topic);
  }
}

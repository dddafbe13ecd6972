/** The contract's entry points over its two storage cells, `CURRENT_ID` and
    `MESSAGES`: instantiation, the add-message command and the query dispatch. */
module Contract {
  import opened State
  import opened Queries
  import Decimal

  /** The one command of `execute`. */
  datatype ExecuteMsg = AddMessage(topic: string, message: string)

  /** The five queries of `query`. */
  datatype QueryMsg =
    | GetCurrentId
    | GetAllMessage
    | GetMessagesByAddr(address: string)
    | GetMessagesByTopic(topic: string)
    | GetMessagesById(id: U128)

  /** What a query answers, before serialisation: the counter or a list of records. */
  datatype QueryResponse =
    | CurrentIdResponse(currentId: U128)
    | MessagesResponse(messages: seq<Message>)

  /** A key/value attribute of a `Response`. */
  datatype Attribute = Attribute(key: string, value: string)

  /** The part of a `Response` this contract fills in: its attributes. */
  datatype Response = Response(attributes: seq<Attribute>)

  /** Why a command aborts. The only one the core raises is the panic of
      `checked_add(1).unwrap()` when the counter is already the largest `u128`. */
  datatype ContractError = CounterOverflow

  datatype Result<T> = Ok(value: T) | Err(error: ContractError)

  /** The attributes of a successful add, in order. */
  function AddAttributes(id: U128, topic: string, message: string): (attrs: seq<Attribute>)
    ensures |attrs| == 4
    ensures attrs[0] == Attribute("execute", "add message")
    ensures attrs[1] == Attribute("message id", Decimal.NatToString(id))
    ensures Decimal.AllDigits(attrs[1].value) && Decimal.ParseDecimal(attrs[1].value) == id
    ensures attrs[2] == Attribute("topic", topic) && attrs[3] == Attribute("message text", message)
  {
    Decimal.ParseNatToString(id);
    [ Attribute("execute", "add message"),
      Attribute("message id", Decimal.NatToString(id)),
      Attribute("topic", topic),
      Attribute("message text", message) ]
  }

  /** One contract instance: the counter `CURRENT_ID` and the store `MESSAGES`. */
  class Registry {
    var currentId: U128
    var messages: map<U128, Message>

    /** The store holds exactly the keys `0 .. currentId-1`, each under its own id. */
    ghost predicate Valid()
      reads this
    {
      Consistent(currentId, messages)
    }

    /** `instantiate` on a fresh instance: the store is empty and the counter is 0. */
    constructor Instantiate()
      ensures Valid()
      ensures currentId == 0 && messages == map[]
      ensures Query(GetCurrentId) == CurrentIdResponse(0)
      ensures Query(GetAllMessage) == MessagesResponse([])
    {
      currentId := 0;
      messages := map[];
    }

    /** `add_message`: stores the caller's message under the next id and advances
        the counter, or aborts with nothing changed when the counter cannot advance. */
    method AddMessage(sender: string, topic: string, message: string) returns (res: Result<Response>)
      requires Valid()
      modifies this
      ensures Valid()
      ensures res.Err? <==> old(currentId) == U128_MAX
      ensures res.Err? ==> res.error == CounterOverflow
      ensures res.Err? ==> currentId == old(currentId) && messages == old(messages)
      ensures res.Ok? ==> currentId == old(currentId) + 1
      ensures res.Ok? ==> old(currentId) !in old(messages)
      ensures res.Ok? ==>
        messages == old(messages)[old(currentId) := Message(old(currentId), sender, topic, message)]
      ensures res.Ok? ==> res.value == Response(AddAttributes(old(currentId), topic, message))
      ensures res.Ok? ==>
        AllMessages(messages) == old(AllMessages(messages)) + [Message(old(currentId), sender, topic, message)]
    {
      var n := currentId;
      var newMessage := Message(n, sender, topic, message);
      if n == U128_MAX {
        return Err(CounterOverflow);
      }
      var next := n + 1;
      AddExtendsListing(n, messages, newMessage);
      AddKeepsConsistent(n, messages, newMessage);
      messages := messages[newMessage.id := newMessage];
      currentId := next;
      res := Ok(Response(AddAttributes(newMessage.id, newMessage.topic, newMessage.message)));
    }

    /** `execute`: runs the command it is given. */
    method Execute(sender: string, msg: ExecuteMsg) returns (res: Result<Response>)
      requires Valid()
      modifies this
      ensures Valid()
      ensures res.Err? <==> old(currentId) == U128_MAX
      ensures res.Err? ==> currentId == old(currentId) && messages == old(messages)
      ensures res.Ok? ==> currentId == old(currentId) + 1
      ensures res.Ok? ==>
        messages == old(messages)[old(currentId) := Message(old(currentId), sender, msg.topic, msg.message)]
      ensures res.Ok? ==> res.value == Response(AddAttributes(old(currentId), msg.topic, msg.message))
    {
      match msg
      case AddMessage(topic, message) =>
        res := AddMessage(sender, topic, message);
    }

    /** `query`: answers one of the five queries from the current state, which
        it only reads. */
    function Query(msg: QueryMsg): (r: QueryResponse)
      reads this
      requires Valid()
      ensures msg.GetCurrentId? ==> r == CurrentIdResponse(currentId)
      ensures !msg.GetCurrentId? ==> r.MessagesResponse?
      ensures msg.GetAllMessage? ==>
        && |r.messages| == currentId
        && forall i :: 0 <= i < currentId ==> r.messages[i] == messages[i] && r.messages[i].id == i
      ensures msg.GetMessagesByAddr? ==>
        && Sequences.IsSubsequence(r.messages, AllMessages(messages))
        && (forall i :: 0 <= i < |r.messages| ==> r.messages[i].owner == msg.address)
        && forall k :: k in messages && messages[k].owner == msg.address ==> messages[k] in r.messages
      ensures msg.GetMessagesByTopic? ==>
        && Sequences.IsSubsequence(r.messages, AllMessages(messages))
        && (forall i :: 0 <= i < |r.messages| ==> r.messages[i].topic == msg.topic)
        && forall k :: k in messages && messages[k].topic == msg.topic ==> messages[k] in r.messages
      ensures msg.GetMessagesById? ==>
        r.messages == if msg.id < currentId then [messages[msg.id]] else []
    {
      AllMessagesInOrder(currentId, messages);
      match msg
      case GetCurrentId => CurrentIdResponse(currentId)
      case GetAllMessage => MessagesResponse(AllMessages(messages))
      case GetMessagesByAddr(address) =>
        ByAddrMembers(messages, address);
        MessagesResponse(MessagesByAddr(messages, address))
      case GetMessagesByTopic(topic) =>
        ByTopicMembers(messages, topic);
        MessagesResponse(MessagesByTopic(messages, topic))
      case GetMessagesById(id) =>
        MessagesByIdExact(currentId, messages, id);
        MessagesResponse(MessagesById(messages, id))
    }
  }
}

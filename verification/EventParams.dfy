/** EventSubParams and EventSubSubRequest as JSON trees, there and back. */
module EventParams {
  import opened Words
  import EventMachine
  import TypeStrings

  datatype Json =
    | Null
    | Flag(b: bool)
    | Num(n: int)
    | Text(s: string)
    | Arr(items: seq<Json>)
    | Obj(fields: map<string, Json>)

  datatype Params = Params(fromBlock: int, toBlock: int, addresses: set<string>, topics: seq<set<string>>)

  const FRESH := Params(-1, -1, {}, [])

  // ---------- reading a JSON tree ----------

  function AsInt64(j: Json): Result<int> {
    match j
    case Null => Ok(0)
    case Flag(b) => Ok(if b then 1 else 0)
    case Num(n) => if IsInt64(n) then Ok(n) else Err
    case _ => Err
  }

  predicate IsInt64(n: int) {
    -0x8000_0000_0000_0000 <= n < 0x8000_0000_0000_0000
  }

  function AsString(j: Json): Result<string> {
    match j
    case Null => Ok("")
    case Flag(b) => Ok(if b then "true" else "false")
    case Num(n) => Ok(Decimal(n))
    case Text(s) => Ok(s)
    case _ => Err
  }

  function Decimal(n: int): string {
    if n < 0 then "-" + TypeStrings.Digits(-n) else TypeStrings.Digits(n)
  }

  // size() and operator[]: only arrays have elements, and an object with members has none to give.
  function Elements(j: Json): Result<seq<Json>> {
    match j
    case Arr(items) => Ok(items)
    case Obj(fields) => if fields == map[] then Ok([]) else Err
    case _ => Ok([])
  }

  // isMember: anything but an object or null is refused.
  function Fields(j: Json): Result<map<string, Json>> {
    match j
    case Null => Ok(map[])
    case Obj(fields) => Ok(fields)
    case _ => Err
  }

  // ---------- what fromJson makes of it ----------

  // resize(index + 1): longer with empty positions, or cut off.
  function Resize(topics: seq<set<string>>, n: nat): (r: seq<set<string>>)
    ensures |r| == n
    ensures forall i :: 0 <= i < n ==> r[i] == if i < |topics| then topics[i] else {}
  {
    seq(n, i requires 0 <= i < n => if i < |topics| then topics[i] else {})
  }

  function AddTopic(topics: seq<set<string>>, index: nat, topic: string): seq<set<string>> {
    var longer := Resize(topics, index + 1);
    longer[index := longer[index] + {topic}]
  }

  // Elements k and on of the list at one position.
  function AddTopics(topics: seq<set<string>>, index: nat, js: seq<Json>, k: nat): Result<seq<set<string>>>
    decreases |js| - k
  {
    if k >= |js| then Ok(topics)
    else
      var topic :- AsString(js[k]);
      AddTopics(AddTopic(topics, index, topic), index, js, k + 1)
  }

  function AddPosition(topics: seq<set<string>>, index: nat, j: Json): Result<seq<set<string>>> {
    if j.Null? then Ok(topics)
    else if j.Arr? then AddTopics(topics, index, j.items, 0)
    else
      var topic :- AsString(j);
      Ok(AddTopic(topics, index, topic))
  }

  // Positions index and on.
  function AddPositions(topics: seq<set<string>>, js: seq<Json>, index: nat): Result<seq<set<string>>>
    decreases |js| - index
  {
    if index >= |js| then Ok(topics)
    else
      var next :- AddPosition(topics, index, js[index]);
      AddPositions(next, js, index + 1)
  }

  function AddAddresses(addresses: set<string>, js: seq<Json>, k: nat): Result<set<string>>
    decreases |js| - k
  {
    if k >= |js| then Ok(addresses)
    else
      var address :- AsString(js[k]);
      AddAddresses(addresses + {address}, js, k + 1)
  }

  function ReadBlock(fields: map<string, Json>, key: string, otherwise: int): Result<int> {
    if key in fields then AsInt64(fields[key]) else Ok(otherwise)
  }

  function ReadAddresses(fields: map<string, Json>, addresses: set<string>): Result<set<string>> {
    if "addresses" !in fields then Ok(addresses)
    else
      var items :- Elements(fields["addresses"]);
      AddAddresses(addresses, items, 0)
  }

  function ReadTopics(fields: map<string, Json>, topics: seq<set<string>>): Result<seq<set<string>>> {
    if "topics" !in fields then Ok(topics)
    else
      var items :- Elements(fields["topics"]);
      AddPositions(topics, items, 0)
  }

  function Parse(p: Params, j: Json): Result<Params> {
    var fields :- Fields(j);
    var fromBlock :- ReadBlock(fields, "fromBlock", p.fromBlock);
    var toBlock :- ReadBlock(fields, "toBlock", p.toBlock);
    var addresses :- ReadAddresses(fields, p.addresses);
    var topics :- ReadTopics(fields, p.topics);
    Ok(Params(fromBlock, toBlock, addresses, topics))
  }

  // ---------- what toJson writes ----------

  // An array with each element once, in some order.
  ghost predicate RendersSet(j: Json, s: set<string>) {
    && j.Arr? && |j.items| == |s|
    && (forall i :: 0 <= i < |j.items| ==> j.items[i].Text?)
    && (set i | 0 <= i < |j.items| :: j.items[i].s) == s
  }

  ghost predicate RendersPosition(j: Json, s: set<string>) {
    if s == {} then j == Null else RendersSet(j, s)
  }

  ghost predicate RendersTopics(j: Json, topics: seq<set<string>>) {
    && j.Arr? && |j.items| == |topics|
    && forall i :: 0 <= i < |topics| ==> RendersPosition(j.items[i], topics[i])
  }

  ghost predicate Renders(j: Json, p: Params) {
    && j.Obj? && j.fields.Keys == {"fromBlock", "toBlock", "addresses", "topics"}
    && j.fields["fromBlock"] == Num(p.fromBlock) && j.fields["toBlock"] == Num(p.toBlock)
    && RendersSet(j.fields["addresses"], p.addresses)
    && RendersTopics(j.fields["topics"], p.topics)
  }

  // ---------- the objects ----------

  method TextArray(s: set<string>) returns (j: Json)
    ensures RendersSet(j, s)
  {
    var items: seq<Json> := [];
    var todo := s;
    while todo != {}
      invariant todo <= s && |items| + |todo| == |s|
      invariant forall i :: 0 <= i < |items| ==> items[i].Text?
      invariant (set i | 0 <= i < |items| :: items[i].s) == s - todo
      decreases todo
    {
      var x :| x in todo;
      todo := todo - {x};
      SetOfAppended(items, x);
      items := items + [Text(x)];
    }
    j := Arr(items);
  }

  lemma SetOfAppended(items: seq<Json>, x: string)
    requires forall i :: 0 <= i < |items| ==> items[i].Text?
    ensures var longer := items + [Text(x)];
            (set i | 0 <= i < |longer| :: longer[i].s) == (set i | 0 <= i < |items| :: items[i].s) + {x}
  {
    var longer := items + [Text(x)];
    assert longer[|items|].s == x;
    forall i | 0 <= i < |items| ensures longer[i].s == items[i].s {
    }
  }

  method TopicsArray(topics: seq<set<string>>) returns (j: Json)
    ensures RendersTopics(j, topics)
  {
    hide RendersSet;
    var items: seq<Json> := [];
    for i := 0 to |topics|
      invariant |items| == i
      invariant forall k :: 0 <= k < i ==> RendersPosition(items[k], topics[k])
    {
      var inner := Null;
      if topics[i] != {} {
        inner := TextArray(topics[i]);
      }
      items := items + [inner];
    }
    j := Arr(items);
  }

  class EventSubParams {
    var fromBlock: int
    var toBlock: int
    var addresses: set<string>
    var topics: seq<set<string>>

    function State(): Params
      reads this
    {
      Params(fromBlock, toBlock, addresses, topics)
    }

    constructor ()
      ensures State() == FRESH
    {
      fromBlock, toBlock, addresses, topics := -1, -1, {}, [];
    }

    method AddTopicAt(index: nat, topic: string)
      modifies this`topics
      ensures topics == AddTopic(old(topics), index, topic)
    {
      topics := Resize(topics, index + 1);
      topics := topics[index := topics[index] + {topic}];
    }

    // When it fails, what was read before stays.
    method FromJson(j: Json) returns (ok: bool)
      modifies this
      ensures ok == Parse(old(State()), j).Ok?
      ensures ok ==> State() == Parse(old(State()), j).value
    {
      hide AddAddresses, AddPositions, AsInt64, Elements;
      var fields := Fields(j);
      if fields.Err? {
        return false;
      }
      var from := ReadBlock(fields.value, "fromBlock", fromBlock);
      if from.Err? {
        return false;
      }
      fromBlock := from.value;
      var to := ReadBlock(fields.value, "toBlock", toBlock);
      if to.Err? {
        return false;
      }
      toBlock := to.value;
      if "addresses" in fields.value {
        var items := Elements(fields.value["addresses"]);
        if items.Err? {
          return false;
        }
        ok := AddAllAddresses(items.value);
        if !ok {
          return false;
        }
      }
      if "topics" in fields.value {
        var items := Elements(fields.value["topics"]);
        if items.Err? {
          return false;
        }
        ok := AddAllPositions(items.value);
        if !ok {
          return false;
        }
      }
      return true;
    }

    method AddAllAddresses(js: seq<Json>) returns (ok: bool)
      modifies this`addresses
      ensures ok == AddAddresses(old(addresses), js, 0).Ok?
      ensures ok ==> addresses == AddAddresses(old(addresses), js, 0).value
    {
      for i := 0 to |js|
        invariant AddAddresses(addresses, js, i) == AddAddresses(old(addresses), js, 0)
      {
        var address := AsString(js[i]);
        if address.Err? {
          return false;
        }
        addresses := addresses + {address.value};
      }
      return true;
    }

    method AddAllPositions(js: seq<Json>) returns (ok: bool)
      modifies this`topics
      ensures ok == AddPositions(old(topics), js, 0).Ok?
      ensures ok ==> topics == AddPositions(old(topics), js, 0).value
    {
      hide AddPosition;
      for i := 0 to |js|
        invariant AddPositions(topics, js, i) == AddPositions(old(topics), js, 0)
      {
        ok := AddOnePosition(i, js[i]);
        if !ok {
          return false;
        }
      }
      return true;
    }

    method AddOnePosition(index: nat, j: Json) returns (ok: bool)
      modifies this`topics
      ensures ok == AddPosition(old(topics), index, j).Ok?
      ensures ok ==> topics == AddPosition(old(topics), index, j).value
    {
      hide AddTopic;
      if j.Null? {
        return true;
      }
      if j.Arr? {
        for k := 0 to |j.items|
          invariant AddTopics(topics, index, j.items, k) == AddTopics(old(topics), index, j.items, 0)
        {
          var topic := AsString(j.items[k]);
          if topic.Err? {
            return false;
          }
          AddTopicAt(index, topic.value);
        }
      } else {
        var topic := AsString(j);
        if topic.Err? {
          return false;
        }
        AddTopicAt(index, topic.value);
      }
      return true;
    }

    method ToJson() returns (j: Json)
      ensures Renders(j, State())
    {
      hide RendersSet, RendersTopics;
      var jAddresses := TextArray(addresses);
      var jTopics := TopicsArray(topics);
      j := Obj(map["fromBlock" := Num(fromBlock), "toBlock" := Num(toBlock), "addresses" := jAddresses, "topics" := jTopics]);
    }
  }

  // The subscribe request: EventMachine.Task says where it resumes.
  class EventSubSubRequest {
    var id: string
    var group: string
    var params: Params
    var currentBlock: int

    constructor (requestId: string, requestGroup: string, p: Params, current: int)
      ensures id == requestId && group == requestGroup && params == p && currentBlock == current
    {
      id, group, params, currentBlock := requestId, requestGroup, p, current;
    }

    method GenerateJson() returns (j: Json)
      ensures RendersRequest(j, id, group, Resumed(params, currentBlock))
    {
      hide RendersSet, RendersTopics;
      var fromBlock := if currentBlock > 0 then currentBlock + 1 else params.fromBlock;
      var jAddresses := TextArray(params.addresses);
      var jTopics := TopicsArray(params.topics);
      var jParams := Obj(map[
        "fromBlock" := Num(fromBlock), "toBlock" := Num(params.toBlock), "addresses" := jAddresses, "topics" := jTopics]);
      j := Obj(map["id" := Text(id), "group" := Text(group), "params" := jParams]);
    }

    // Nothing changes unless everything could be read.
    method FromJson(j: Json) returns (ok: bool)
      modifies this`id, this`group, this`params
      ensures ok == ParseRequest(j).Ok?
      ensures if ok then (id, group, params) == ParseRequest(j).value
              else (id, group, params) == old((id, group, params))
    {
      hide Parse, AsString;
      var fields := Fields(j);
      if fields.Err? || "id" !in fields.value {
        return false;
      }
      var newId := AsString(fields.value["id"]);
      if newId.Err? || "group" !in fields.value {
        return false;
      }
      var newGroup := AsString(fields.value["group"]);
      if newGroup.Err? || "params" !in fields.value {
        return false;
      }
      var newParams := ReadParams(fields.value["params"]);
      ok := newParams.Ok?;
      if ok {
        id, group, params := newId.value, newGroup.value, newParams.value;
      }
    }

    // The request's own loops, on a params object nobody else sees: what they make of a tree is
    // what EventSubParams.FromJson makes of it in a fresh object.
    static method ReadParams(jParams: Json) returns (r: Result<Params>)
      ensures r == Parse(FRESH, jParams)
    {
      hide AddAddresses, AddPositions, AddTopics, AddTopic, AsInt64, Elements;
      if !jParams.Obj? && !jParams.Null? {
        return Err;
      }
      var members := if jParams.Obj? then jParams.fields else map[];
      var fromBlock, toBlock := -1, -1;
      if "fromBlock" in members {
        var block := AsInt64(members["fromBlock"]);
        if block.Err? {
          return Err;
        }
        fromBlock := block.value;
      }
      if "toBlock" in members {
        var block := AsInt64(members["toBlock"]);
        if block.Err? {
          return Err;
        }
        toBlock := block.value;
      }
      var addresses: set<string> := {};
      if "addresses" in members {
        var read := ReadAddressArray(members["addresses"]);
        if read.Err? {
          return Err;
        }
        addresses := read.value;
      }
      var topics: seq<set<string>> := [];
      if "topics" in members {
        var read := ReadTopicArray(members["topics"]);
        if read.Err? {
          return Err;
        }
        topics := read.value;
      }
      r := Ok(Params(fromBlock, toBlock, addresses, topics));
    }

    static method ReadAddressArray(j: Json) returns (r: Result<set<string>>)
      ensures r == if Elements(j).Err? then Err else AddAddresses({}, Elements(j).value, 0)
    {
      var items := Elements(j);
      if items.Err? {
        return Err;
      }
      var addresses: set<string> := {};
      for index := 0 to |items.value|
        invariant AddAddresses(addresses, items.value, index) == AddAddresses({}, items.value, 0)
      {
        var address := AsString(items.value[index]);
        if address.Err? {
          return Err;
        }
        addresses := addresses + {address.value};
      }
      r := Ok(addresses);
    }

    static method ReadTopicArray(j: Json) returns (r: Result<seq<set<string>>>)
      ensures r == if Elements(j).Err? then Err else AddPositions([], Elements(j).value, 0)
    {
      hide AddTopic, AsString;
      var items := Elements(j);
      if items.Err? {
        return Err;
      }
      var topics: seq<set<string>> := [];
      for index := 0 to |items.value|
        invariant AddPositions(topics, items.value, index) == AddPositions([], items.value, 0)
      {
        var jIndex := items.value[index];
        if jIndex.Null? {
          continue;
        }
        if jIndex.Arr? {
          ghost var before := topics;
          for innerIndex := 0 to |jIndex.items|
            invariant AddTopics(topics, index, jIndex.items, innerIndex) == AddTopics(before, index, jIndex.items, 0)
          {
            var topic := AsString(jIndex.items[innerIndex]);
            if topic.Err? {
              return Err;
            }
            topics := AddTopic(topics, index, topic.value);
          }
        } else {
          var topic := AsString(jIndex);
          if topic.Err? {
            return Err;
          }
          topics := AddTopic(topics, index, topic.value);
        }
      }
      r := Ok(topics);
    }
  }

  // The params with the block the next request asks from.
  function Resumed(p: Params, current: int): Params {
    p.(fromBlock := EventMachine.StartBlock(EventMachine.Task(p.fromBlock, current, None)))
  }

  ghost predicate RendersRequest(j: Json, id: string, group: string, p: Params) {
    && j.Obj? && j.fields.Keys == {"id", "group", "params"}
    && j.fields["id"] == Text(id) && j.fields["group"] == Text(group)
    && Renders(j.fields["params"], p)
  }

  function ParseRequest(j: Json): Result<(string, string, Params)> {
    var fields :- Fields(j);
    if "id" !in fields || "group" !in fields || "params" !in fields then Err
    else
      var id :- AsString(fields["id"]);
      var group :- AsString(fields["group"]);
      var params :- Parse(FRESH, fields["params"]);
      Ok((id, group, params))
  }

  // ---------- there and back ----------

  // The first position from k on that has a topic.
  function FirstUsed(ts: seq<set<string>>, k: nat): (f: nat)
    requires k <= |ts|
    ensures k <= f <= |ts| && (f < |ts| ==> ts[f] != {})
    ensures forall i :: k <= i < f ==> ts[i] == {}
    decreases |ts| - k
  {
    if k == |ts| || ts[k] != {} then k else FirstUsed(ts, k + 1)
  }

  // The length of the first k positions without the trailing empty ones.
  function UsedLength(ts: seq<set<string>>, k: nat): (n: nat)
    requires k <= |ts|
    ensures n <= k && (n > 0 ==> ts[n - 1] != {})
    ensures forall i :: n <= i < k ==> ts[i] == {}
  {
    if k == 0 || ts[k - 1] != {} then k else UsedLength(ts, k - 1)
  }

  // The topics ts read into an object that had topics already. From the first position with a
  // topic on, what the object had is cut off.
  function Merged(had: seq<set<string>>, ts: seq<set<string>>, k: nat): seq<set<string>>
    requires k <= |ts|
  {
    var n := UsedLength(ts, k);
    if n == 0 then had
    else seq(n, i requires 0 <= i < n => if i <= FirstUsed(ts, 0) && i < |had| then had[i] + ts[i] else ts[i])
  }

  // The topics of one position read in.
  function Place(topics: seq<set<string>>, index: nat, s: set<string>): seq<set<string>> {
    if s == {} then topics
    else
      var longer := Resize(topics, index + 1);
      longer[index := longer[index] + s]
  }

  lemma MergedStep(had: seq<set<string>>, ts: seq<set<string>>, k: nat)
    requires k < |ts|
    ensures Merged(had, ts, k + 1) == Place(Merged(had, ts, k), k, ts[k])
  {
    if ts[k] != {} {
      var f, n := FirstUsed(ts, 0), UsedLength(ts, k);
      assert n == 0 ==> f == k;
      assert n > 0 ==> f < n;
      var m, m' := Place(Merged(had, ts, k), k, ts[k]), Merged(had, ts, k + 1);
      forall i | 0 <= i <= k ensures m[i] == m'[i] {
        assert ts[k] + {} == {} + ts[k] == ts[k];
        if n <= i < k {
          assert ts[i] == {};
          assert i < |had| ==> had[i] + ts[i] == had[i];
        }
      }
      assert m == m';
    }
  }

  function TextsFrom(js: seq<Json>, k: nat): set<string>
    requires forall i :: 0 <= i < |js| ==> js[i].Text?
  {
    set i | k <= i < |js| :: js[i].s
  }

  lemma TextsFromStep(js: seq<Json>, k: nat)
    requires k < |js| && forall i :: 0 <= i < |js| ==> js[i].Text?
    ensures TextsFrom(js, k) == {js[k].s} + TextsFrom(js, k + 1)
  {
  }

  lemma {:induction false} AddressesRead(addresses: set<string>, js: seq<Json>, k: nat)
    requires k <= |js| && forall i :: 0 <= i < |js| ==> js[i].Text?
    ensures AddAddresses(addresses, js, k) == Ok(addresses + TextsFrom(js, k))
    decreases |js| - k
  {
    if k < |js| {
      TextsFromStep(js, k);
      AddressesRead(addresses + {js[k].s}, js, k + 1);
      assert addresses + {js[k].s} + TextsFrom(js, k + 1) == addresses + TextsFrom(js, k);
    } else {
      assert addresses + TextsFrom(js, k) == addresses;
    }
  }

  lemma {:induction false} TopicsRead(topics: seq<set<string>>, index: nat, js: seq<Json>, k: nat)
    requires k < |js| && forall i :: 0 <= i < |js| ==> js[i].Text?
    ensures AddTopics(topics, index, js, k) == Ok(Place(topics, index, TextsFrom(js, k)))
    decreases |js| - k
  {
    hide Resize, Place;
    PlaceOne(topics, index, js[k].s);
    var added := AddTopic(topics, index, js[k].s);
    TextsFromStep(js, k);
    if k + 1 < |js| {
      TopicsRead(added, index, js, k + 1);
      assert js[k + 1].s in TextsFrom(js, k + 1);
      PlaceTwice(topics, index, js[k].s, TextsFrom(js, k + 1));
    } else {
      assert TextsFrom(js, k + 1) == {};
      assert TextsFrom(js, k) == {js[k].s};
    }
  }

  lemma PlaceOne(topics: seq<set<string>>, index: nat, x: string)
    ensures AddTopic(topics, index, x) == Place(topics, index, {x})
  {
  }

  lemma PlaceTwice(topics: seq<set<string>>, index: nat, x: string, s: set<string>)
    requires s != {}
    ensures Place(AddTopic(topics, index, x), index, s) == Place(topics, index, {x} + s)
  {
    var longer, added := Resize(topics, index + 1), AddTopic(topics, index, x);
    assert Resize(added, index + 1) == added;
    assert longer[index] + {x} + s == longer[index] + ({x} + s);
  }

  lemma PositionRead(topics: seq<set<string>>, index: nat, j: Json, s: set<string>)
    requires RendersPosition(j, s)
    ensures AddPosition(topics, index, j) == Ok(Place(topics, index, s))
  {
    hide Place, AddTopics;
    if s == {} {
      NothingPlaced(topics, index);
    } else {
      assert s == TextsFrom(j.items, 0);
      TopicsRead(topics, index, j.items, 0);
    }
  }

  lemma NothingPlaced(topics: seq<set<string>>, index: nat)
    ensures Place(topics, index, {}) == topics
  {
  }

  lemma {:induction false} PositionsRead(had: seq<set<string>>, ts: seq<set<string>>, j: Json, k: nat)
    requires RendersTopics(j, ts) && k <= |ts|
    ensures AddPositions(Merged(had, ts, k), j.items, k) == Ok(Merged(had, ts, |ts|))
    decreases |ts| - k
  {
    hide Merged, Place, AddPosition, RendersPosition;
    if k < |ts| {
      MergedStep(had, ts, k);
      PositionRead(Merged(had, ts, k), k, j.items[k], ts[k]);
      PositionsRead(had, ts, j, k + 1);
    }
  }

  // A position that is a plain string adds that string, as a list of it alone would.
  lemma PlainTopic(topics: seq<set<string>>, index: nat, x: string)
    ensures AddPosition(topics, index, Text(x)) == Ok(Place(topics, index, {x}))
    ensures AddPosition(topics, index, Arr([Text(x)])) == Ok(Place(topics, index, {x}))
  {
    var js := [Text(x)];
    PlaceOne(topics, index, x);
    TopicsRead(topics, index, js, 0);
    TextsFromStep(js, 0);
    assert TextsFrom(js, 1) == {};
  }

  // The new topics: as many positions as the index asks for, the topic at its place, the rest as
  // it was or empty.
  lemma PlacedTopic(topics: seq<set<string>>, index: nat, x: string)
    ensures var after := AddTopic(topics, index, x);
            && |after| == index + 1
            && after[index] == (if index < |topics| then topics[index] else {}) + {x}
            && forall i :: 0 <= i < index ==> after[i] == if i < |topics| then topics[i] else {}
  {
  }

  // What is missing stays as it was; so does everything where there is no object.
  lemma MissingMembers(p: Params)
    ensures Parse(p, Obj(map[])) == Ok(p) == Parse(p, Null)
    ensures forall n :: IsInt64(n) ==> Parse(p, Obj(map["fromBlock" := Num(n)])) == Ok(p.(fromBlock := n))
    ensures forall n :: IsInt64(n) ==> Parse(p, Obj(map["toBlock" := Num(n)])) == Ok(p.(toBlock := n))
    ensures Parse(p, Obj(map["fromBlock" := Text("1")])) == Err
  {
  }

  // Members of other kinds: null, true and false are numbers, what does not fit 64 bits, texts,
  // lists and objects are not; null, true, false and numbers are texts, lists and objects are not.
  lemma OddBlocks(p: Params, n: int, s: string, js: seq<Json>, o: map<string, Json>)
    ensures var read := (j: Json) => Parse(p, Obj(map["fromBlock" := j]));
            && read(Null) == Ok(p.(fromBlock := 0))
            && read(Flag(true)) == Ok(p.(fromBlock := 1)) && read(Flag(false)) == Ok(p.(fromBlock := 0))
            && (!(-0x8000_0000_0000_0000 <= n < 0x8000_0000_0000_0000) ==> read(Num(n)) == Err)
            && read(Text(s)) == read(Arr(js)) == read(Obj(o)) == Err
  {
  }

  // Only lists have addresses; an object with members is refused, anything else has none.
  lemma NoAddresses(p: Params, j: Json)
    requires !j.Arr?
    ensures Parse(p, Obj(map["addresses" := j])) == if j.Obj? && j.fields != map[] then Err else Ok(p)
  {
  }

  lemma OddAddresses(p: Params, j: Json)
    ensures var read := Parse(p, Obj(map["addresses" := Arr([j])]));
            match j
            case Null => read == Ok(p.(addresses := p.addresses + {""}))
            case Flag(b) => read == Ok(p.(addresses := p.addresses + {if b then "true" else "false"}))
            case Num(n) => n == -7 ==> read == Ok(p.(addresses := p.addresses + {"-7"}))
            case Text(s) => read == Ok(p.(addresses := p.addresses + {s}))
            case _ => read == Err
  {
    hide AddAddresses;
    OneAddress(p.addresses, j);
    assert TypeStrings.Digits(7) == "7";
    assert Decimal(-7) == "-7";
  }

  lemma OneAddress(addresses: set<string>, j: Json)
    ensures AddAddresses(addresses, [j], 0) == if AsString(j).Err? then Err else Ok(addresses + {AsString(j).value})
  {
    var js := [j];
    assert AsString(j).Ok? ==> AddAddresses(addresses + {AsString(j).value}, js, 1) == Ok(addresses + {AsString(j).value});
  }

  // What toJson writes, member by member: the blocks as numbers, every address once as a text,
  // null for a position without topics and its topics once each for any other.
  lemma RenderedMembers(j: Json, p: Params)
    requires Renders(j, p)
    ensures j.Obj? && j.fields.Keys == {"fromBlock", "toBlock", "addresses", "topics"}
    ensures j.fields["fromBlock"] == Num(p.fromBlock) && j.fields["toBlock"] == Num(p.toBlock)
    ensures j.fields["addresses"].Arr? && |j.fields["addresses"].items| == |p.addresses|
    ensures forall a :: a in p.addresses <==> Text(a) in j.fields["addresses"].items
    ensures j.fields["topics"].Arr? && |j.fields["topics"].items| == |p.topics|
    ensures forall i :: 0 <= i < |p.topics| ==>
              var position := j.fields["topics"].items[i];
              && (p.topics[i] == {} <==> position == Null)
              && (p.topics[i] != {} ==> position.Arr? && |position.items| == |p.topics[i]|)
  {
    var items := j.fields["addresses"].items;
    forall a ensures a in p.addresses <==> Text(a) in items {
      if a in p.addresses {
        var i :| 0 <= i < |items| && items[i].s == a;
        assert items[i] == Text(a);
      }
      if Text(a) in items {
        var i :| 0 <= i < |items| && items[i] == Text(a);
        assert items[i].s == a;
      }
    }
  }

  // A list of one plain topic, read from its member.
  lemma TopicsMember(p: Params, x: string)
    ensures Parse(p, Obj(map["topics" := Arr([Text(x)])])) == Ok(p.(topics := Place(p.topics, 0, {x})))
  {
    hide AddPosition, Place;
    var js := [Text(x)];
    PlainTopic(p.topics, 0, x);
    assert AddPositions(Place(p.topics, 0, {x}), js, 1) == Ok(Place(p.topics, 0, {x}));
  }

  // A request without an id, a group or params is refused.
  lemma IncompleteRequest(j: Json)
    requires j.Obj? ==> "id" !in j.fields || "group" !in j.fields || "params" !in j.fields
    ensures ParseRequest(j) == Err
  {
  }

  // Reading what was written for p into any object: p's blocks, both address sets, and the
  // merged topics.
  lemma ParseRendered(p: Params, j: Json, before: Params)
    requires Renders(j, p) && IsInt64(p.fromBlock) && IsInt64(p.toBlock)
    ensures Parse(before, j) ==
            Ok(Params(p.fromBlock, p.toBlock, before.addresses + p.addresses, Merged(before.topics, p.topics, |p.topics|)))
  {
    hide AddAddresses, AddPositions, Merged, RendersTopics;
    var fields := j.fields;
    assert RendersTopics(fields["topics"], p.topics);
    TopicsArrayShape(fields["topics"], p.topics);
    AddressesRead(before.addresses, fields["addresses"].items, 0);
    assert TextsFrom(fields["addresses"].items, 0) == p.addresses;
    NothingMerged(before.topics, p.topics);
    PositionsRead(before.topics, p.topics, fields["topics"], 0);
  }

  lemma TopicsArrayShape(j: Json, topics: seq<set<string>>)
    requires RendersTopics(j, topics)
    ensures j.Arr?
  {
  }

  lemma NothingMerged(had: seq<set<string>>, ts: seq<set<string>>)
    ensures Merged(had, ts, 0) == had
  {
  }

  // A fresh object gets p back, up to trailing positions without topics.
  lemma FreshRoundTrip(p: Params, j: Json)
    requires Renders(j, p) && IsInt64(p.fromBlock) && IsInt64(p.toBlock)
    ensures Parse(FRESH, j) == Ok(p.(topics := p.topics[..UsedLength(p.topics, |p.topics|)]))
    ensures Parse(FRESH, j) == Ok(p) <==> p.topics == [] || p.topics[|p.topics| - 1] != {}
  {
    hide Parse, Renders;
    ParseRendered(p, j, FRESH);
    assert {} + p.addresses == p.addresses;
    var n := UsedLength(p.topics, |p.topics|);
    assert Merged([], p.topics, |p.topics|) == p.topics[..n];
    assert n == |p.topics| ==> p.topics[..n] == p.topics;
  }

  // A request read back has the id, the group and the params as a fresh params object reads
  // them, with the block to resume from.
  lemma RequestRoundTrip(id: string, group: string, p: Params, current: int, j: Json)
    requires RendersRequest(j, id, group, Resumed(p, current))
    requires IsInt64(Resumed(p, current).fromBlock) && IsInt64(p.toBlock)
    ensures ParseRequest(j) ==
            Ok((id, group, Resumed(p, current).(topics := p.topics[..UsedLength(p.topics, |p.topics|)])))
  {
    hide Parse, Renders, UsedLength;
    FreshRoundTrip(Resumed(p, current), j.fields["params"]);
  }
}

/** The handler that picks the challenge, the origin and the type out of the client data of a WebAuthn assertion,
while the JSON reader feeds it one event after the other.
 */
module WebauthnJson {
  import opened CStrings

  const WORD: nat := 0x1_0000_0000

  datatype Phase =
    | ExpectFirstObjectStart
    | ExpectFirstObjectKey
    | ExpectFirstObjectDontCareValue
    | ExpectChallengeValue
    | ExpectOriginValue
    | ExpectTypeValue
    | InNestedContainer

  datatype State = State(phase: Phase, depth: nat, challenge: string, origin: string, kind: string)

  const START := State(ExpectFirstObjectStart, 0, "", "", "")

  datatype Scalar = Null | Bool | Int | Uint | Int64 | Uint64 | Double

  datatype Event =
    | Basic(scalar: Scalar)
    | String(text: string)
    | Key(text: string)
    | StartObject
    | EndObject
    | StartArray
    | EndArray

  /** What the handler answers: false stops the reader. */
  datatype Outcome = Rejected | Accepted(state: State)

  datatype Json =
    | Plain(scalar: Scalar)
    | Text(text: string)
    | Array(items: seq<Json>)
    | Object(members: seq<Member>)

  datatype Member = Member(key: string, value: Json)

  /** A key is compared as a C string, so only up to its first NUL. */
  function AfterKey(key: string): Phase {
    var name := CString(key);
    if name == "challenge" then ExpectChallengeValue
    else if name == "origin" then ExpectOriginValue
    else if name == "type" then ExpectTypeValue
    else ExpectFirstObjectDontCareValue
  }

  function Enter(s: State): State { s.(phase := InNestedContainer, depth := (s.depth + 1) % WORD) }

  function Leave(s: State): State {
    var depth := (s.depth + WORD - 1) % WORD;
    s.(depth := depth, phase := if depth == 0 then ExpectFirstObjectKey else s.phase)
  }

  function OnBasic(s: State): Outcome {
    match s.phase
    case InNestedContainer => Accepted(s)
    case ExpectFirstObjectDontCareValue => Accepted(s.(phase := ExpectFirstObjectKey))
    case _ => Rejected
  }

  function OnString(s: State, text: string): Outcome {
    match s.phase
    case ExpectFirstObjectStart | ExpectFirstObjectKey => Rejected
    case ExpectChallengeValue => Accepted(s.(challenge := text, phase := ExpectFirstObjectKey))
    case ExpectOriginValue => Accepted(s.(origin := text, phase := ExpectFirstObjectKey))
    case ExpectTypeValue => Accepted(s.(kind := text, phase := ExpectFirstObjectKey))
    case ExpectFirstObjectDontCareValue => Accepted(s.(phase := ExpectFirstObjectKey))
    case InNestedContainer => Accepted(s)
  }

  function OnKey(s: State, text: string): Outcome {
    match s.phase
    case ExpectFirstObjectKey => Accepted(s.(phase := AfterKey(text)))
    case InNestedContainer => Accepted(s)
    case _ => Rejected
  }

  function OnStartObject(s: State): Outcome {
    match s.phase
    case ExpectFirstObjectStart => Accepted(s.(phase := ExpectFirstObjectKey))
    case ExpectFirstObjectDontCareValue | InNestedContainer => Accepted(Enter(s))
    case _ => Rejected
  }

  function OnEndObject(s: State): Outcome {
    match s.phase
    case InNestedContainer => Accepted(Leave(s))
    case ExpectFirstObjectKey => Accepted(s)
    case _ => Rejected
  }

  function OnStartArray(s: State): Outcome {
    match s.phase
    case ExpectFirstObjectDontCareValue | InNestedContainer => Accepted(Enter(s))
    case _ => Rejected
  }

  function OnEndArray(s: State): Outcome {
    match s.phase
    case InNestedContainer => Accepted(Leave(s))
    case _ => Rejected
  }

  function Step(s: State, e: Event): Outcome {
    match e
    case Basic(_) => OnBasic(s)
    case String(text) => OnString(s, text)
    case Key(text) => OnKey(s, text)
    case StartObject => OnStartObject(s)
    case EndObject => OnEndObject(s)
    case StartArray => OnStartArray(s)
    case EndArray => OnEndArray(s)
  }

  /** The reader feeds all events in order and stops at the first one that is rejected. */
  function Run(s: State, events: seq<Event>): Outcome
    decreases |events|
  {
    if events == [] then Accepted(s)
    else
      match Step(s, events[0])
      case Rejected => Rejected
      case Accepted(t) => Run(t, events[1..])
  }

  function Then(first: Outcome, events: seq<Event>): Outcome {
    if first.Rejected? then Rejected else Run(first.state, events)
  }

  lemma {:induction false} RunConcat(s: State, a: seq<Event>, b: seq<Event>)
    ensures Run(s, a + b) == Then(Run(s, a), b)
    decreases |a|
  {
    if a == [] {
      assert a + b == b;
    } else {
      assert (a + b)[1..] == a[1..] + b;
      if Step(s, a[0]).Accepted? {
        RunConcat(Step(s, a[0]).state, a[1..], b);
      }
    }
  }

  /** The events that the reader produces for a JSON value. */
  function Events(j: Json): seq<Event>
    decreases j
  {
    match j
    case Plain(scalar) => [Basic(scalar)]
    case Text(text) => [String(text)]
    case Array(items) => [StartArray] + ItemEvents(items) + [EndArray]
    case Object(members) => [StartObject] + MemberEvents(members) + [EndObject]
  }

  function ItemEvents(items: seq<Json>): seq<Event>
    decreases items
  {
    if items == [] then [] else ItemEvents(items[..|items| - 1]) + Events(items[|items| - 1])
  }

  function MemberEvents(members: seq<Member>): seq<Event>
    decreases members
  {
    if members == [] then []
    else
      var last := members[|members| - 1];
      MemberEvents(members[..|members| - 1]) + [Key(last.key)] + Events(last.value)
  }

  function Max(a: nat, b: nat): nat { if a < b then b else a }

  /** How deep the containers of a JSON value are nested. */
  function Nesting(j: Json): nat
    decreases j
  {
    match j
    case Plain(_) => 0
    case Text(_) => 0
    case Array(items) => 1 + ItemNesting(items)
    case Object(members) => 1 + MemberNesting(members)
  }

  function ItemNesting(items: seq<Json>): nat
    decreases items
  {
    if items == [] then 0
    else Max(ItemNesting(items[..|items| - 1]), Nesting(items[|items| - 1]))
  }

  function MemberNesting(members: seq<Member>): nat
    decreases members
  {
    if members == [] then 0
    else Max(MemberNesting(members[..|members| - 1]), Nesting(members[|members| - 1].value))
  }

  predicate Wanted(key: string) { CString(key) in ["challenge", "origin", "type"] }

  /** What the handler is for: an object whose challenge, origin and type are strings. */
  predicate Proper(members: seq<Member>) {
    forall m :: m in members && Wanted(m.key) ==> m.value.Text?
  }

  /** The value of the last member of this name, `before` if there is none. */
  function Latest(members: seq<Member>, name: string, before: string): string {
    if members == [] then before
    else
      var last := members[|members| - 1];
      if CString(last.key) == name && last.value.Text? then last.value.text
      else Latest(members[..|members| - 1], name, before)
  }

  /** The handler between two members of the outermost object, after some more of them. */
  function Holding(s: State, members: seq<Member>): State {
    State(ExpectFirstObjectKey, 0,
          Latest(members, "challenge", s.challenge),
          Latest(members, "origin", s.origin),
          Latest(members, "type", s.kind))
  }

  function Found(members: seq<Member>): State { Holding(START, members) }

  function Meaning(j: Json): Outcome {
    if j.Object? && Proper(j.members) then Accepted(Found(j.members)) else Rejected
  }

  /** What the handler makes of a part of a JSON value: nothing, as long as it knows itself in a nested container;
  members that it takes for members of the outermost object, after which it expects the next of them; or nothing that
  it accepts.
   */
  datatype Reading = Silent | Spilled(members: seq<Member>) | Broken

  /** A value with `open` containers open below the outermost object.  Where the counter has wrapped, the handler takes
  the end of the value for the end of the last container.
   */
  function Read(open: nat, j: Json): (r: Reading)
    ensures open == 0 ==> r != Silent
    decreases j
  {
    match j
    case Plain(_) => if open == 0 then Spilled([]) else Silent
    case Text(_) => if open == 0 then Spilled([]) else Silent
    case Array(items) => if ReadItems(open + 1, items) == Silent then Closed(open) else Broken
    case Object(members) =>
      var r := ReadMembers(Silent, open + 1, members);
      if r == Silent then Closed(open) else r
  }

  function Closed(open: nat): Reading { if open % WORD == 0 then Spilled([]) else Silent }

  /** The items of an array: once the handler expects a key, it accepts neither an item nor the end of the array. */
  function ReadItems(open: nat, items: seq<Json>): Reading
    decreases items
  {
    if items == [] then Silent
    else if ReadItems(open, items[..|items| - 1]) == Silent then Read(open, items[|items| - 1])
    else Broken
  }

  /** The members of an object: once the handler expects a key, it takes them for members of the outermost one. */
  function ReadMembers(start: Reading, open: nat, members: seq<Member>): (r: Reading)
    ensures start != Silent ==> r != Silent
    decreases members
  {
    if members == [] then start
    else
      var last := members[|members| - 1];
      match ReadMembers(start, open, members[..|members| - 1])
      case Broken => Broken
      case Silent => Read(open, last.value)
      case Spilled(taken) =>
        if Wanted(last.key) then Spilled(taken + [last])
        else
          match Read(0, last.value)
          case Spilled(more) => Spilled(taken + [last] + more)
          case _ => Broken
  }

  function After(s: State, r: Reading): Outcome {
    match r
    case Silent => Accepted(s)
    case Spilled(members) => if Proper(members) then Accepted(Holding(s, members)) else Rejected
    case Broken => Rejected
  }

  /** What the handler makes of a whole JSON value. */
  function Judgement(j: Json): Outcome {
    if j.Object? then After(START, ReadMembers(Spilled([]), 0, j.members)) else Rejected
  }

  /** Before a value that nobody asked for, with `open` containers open; the counter holds them modulo 2^32. */
  predicate Skipping(s: State, open: nat) {
    && s.phase == (if open == 0 then ExpectFirstObjectDontCareValue else InNestedContainer)
    && s.depth == open % WORD
  }

  lemma EnterLeave(s: State, open: nat)
    requires Skipping(s, open)
    ensures var t := Enter(s);
            && Skipping(t, open + 1) && Accepted(Leave(t)) == After(s, Closed(open))
            && t.challenge == s.challenge && t.origin == s.origin && t.kind == s.kind
  {
  }

  lemma OneStep(s: State, e: Event, events: seq<Event>)
    ensures Run(s, [e] + events) == Then(Step(s, e), events)
  {
    assert ([e] + events)[1..] == events;
  }

  lemma OneEvent(s: State, e: Event)
    ensures Run(s, [e]) == Step(s, e)
  {
    OneStep(s, e, []);
    assert [e] + [] == [e];
  }

  lemma Surrounded(s: State, start: Event, body: seq<Event>, end: Event)
    requires Step(s, start).Accepted?
    ensures Run(s, [start] + body + [end]) == Then(Run(Step(s, start).state, body), [end])
    ensures forall t :: Run(t, [end]) == Step(t, end)
  {
    hide Step;
    assert [start] + body + [end] == [start] + (body + [end]);
    OneStep(s, start, body + [end]);
    RunConcat(Step(s, start).state, body, [end]);
    forall t ensures Run(t, [end]) == Step(t, end) {
      OneEvent(t, end);
    }
  }

  /** One more member: its key, then its value. */
  lemma MemberRun(s: State, front: seq<Member>, last: Member)
    ensures Run(s, MemberEvents(front + [last]))
         == Then(Then(Run(s, MemberEvents(front)), [Key(last.key)]), Events(last.value))
  {
    var members := front + [last];
    assert members[..|members| - 1] == front;
    RunConcat(s, MemberEvents(front) + [Key(last.key)], Events(last.value));
    RunConcat(s, MemberEvents(front), [Key(last.key)]);
  }

  lemma KeyRefusesValue(s: State, j: Json)
    requires s.phase == ExpectFirstObjectKey
    ensures Run(s, Events(j)).Rejected?
  {
    assert Step(s, Events(j)[0]).Rejected?;
  }

  /** A value that the handler waits for must be a string. */
  lemma WantedValue(s: State, j: Json)
    requires s.phase in [ExpectChallengeValue, ExpectOriginValue, ExpectTypeValue]
    ensures Run(s, Events(j)) == if j.Text? then OnString(s, j.text) else Rejected
  {
    if j.Text? {
      OneEvent(s, String(j.text));
    } else {
      assert Step(s, Events(j)[0]).Rejected?;
    }
  }

  lemma {:induction false} LatestConcat(a: seq<Member>, b: seq<Member>, name: string, before: string)
    ensures Latest(a + b, name, before) == Latest(b, name, Latest(a, name, before))
  {
    if b == [] {
      assert a + b == a;
    } else {
      assert (a + b)[..|a + b| - 1] == a + b[..|b| - 1];
      LatestConcat(a, b[..|b| - 1], name, before);
    }
  }

  lemma HoldingConcat(s: State, a: seq<Member>, b: seq<Member>)
    ensures Holding(s, a + b) == Holding(Holding(s, a), b)
  {
    hide Latest;
    LatestConcat(a, b, "challenge", s.challenge);
    LatestConcat(a, b, "origin", s.origin);
    LatestConcat(a, b, "type", s.kind);
  }

  lemma ProperConcat(a: seq<Member>, b: seq<Member>)
    ensures Proper(a + b) <==> Proper(a) && Proper(b)
  {
    hide Wanted;
    if Proper(a + b) {
      assert forall m :: m in a || m in b ==> m in a + b;
    }
  }

  lemma AfterConcat(s: State, a: seq<Member>, b: seq<Member>)
    requires Proper(a)
    ensures After(s, Spilled(a + b)) == After(Holding(s, a), Spilled(b))
  {
    hide Proper, Holding;
    HoldingConcat(s, a, b);
    ProperConcat(a, b);
  }

  lemma OneLatest(m: Member, name: string, before: string)
    ensures Latest([m], name, before) == if CString(m.key) == name && m.value.Text? then m.value.text else before
  {
    assert [m][..0] == [];
  }

  /** A wanted member by itself. */
  lemma WantedHeld(s: State, m: Member)
    requires s.phase == ExpectFirstObjectKey && s.depth == 0 && Wanted(m.key)
    ensures After(s, Spilled([m]))
         == if m.value.Text? then OnString(s.(phase := AfterKey(m.key)), m.value.text) else Rejected
  {
    hide Latest;
    OneLatest(m, "challenge", s.challenge);
    OneLatest(m, "origin", s.origin);
    OneLatest(m, "type", s.kind);
    assert m in [m];
  }

  /** A member that nobody asked for by itself. */
  lemma SkippedHeld(s: State, m: Member)
    requires s.phase == ExpectFirstObjectKey && s.depth == 0 && !Wanted(m.key)
    ensures After(s, Spilled([m])) == Accepted(s)
  {
    hide Latest;
    OneLatest(m, "challenge", s.challenge);
    OneLatest(m, "origin", s.origin);
    OneLatest(m, "type", s.kind);
  }

  lemma SameFound(s: State, t: State, r: Reading)
    requires s.challenge == t.challenge && s.origin == t.origin && s.kind == t.kind
    ensures r != Silent ==> After(s, r) == After(t, r)
  {
    hide Proper;
  }

  lemma NeverProper(s: State, taken: seq<Member>, last: Member)
    requires !Proper(taken)
    ensures After(s, ReadMembers(Spilled(taken), 0, [last])).Rejected?
  {
    hide Proper, Read, Latest, Wanted;
    assert [last][..0] == [];
    ProperConcat(taken, [last]);
    match Read(0, last.value)
    case Spilled(more) =>
      ProperConcat(taken + [last], more);
    case _ =>
  }

  lemma {:induction false} ValueRead(s: State, open: nat, j: Json)
    requires Skipping(s, open)
    ensures Run(s, Events(j)) == After(s, Read(open, j))
    decreases j, 0
  {
    hide Enter, Leave, Run;
    match j
    case Plain(scalar) =>
      OneEvent(s, Basic(scalar));
    case Text(text) =>
      OneEvent(s, String(text));
    case Array(items) =>
      EnterLeave(s, open);
      ItemsRead(Enter(s), open + 1, items);
      Surrounded(s, StartArray, ItemEvents(items), EndArray);
    case Object(members) =>
      EnterLeave(s, open);
      MembersRead(Enter(s), Silent, open + 1, members);
      Surrounded(s, StartObject, MemberEvents(members), EndObject);
      SameFound(Enter(s), s, ReadMembers(Silent, open + 1, members));
  }

  lemma {:induction false} ItemsRead(s: State, open: nat, items: seq<Json>)
    requires Skipping(s, open) && open > 0
    ensures Run(s, ItemEvents(items)) == After(s, ReadItems(open, items))
    decreases items
  {
    if items != [] {
      var front, last := items[..|items| - 1], items[|items| - 1];
      hide Step, Latest, Read, Events;
      ItemsRead(s, open, front);
      RunConcat(s, ItemEvents(front), Events(last));
      match ReadItems(open, front)
      case Silent =>
        ValueRead(s, open, last);
      case Spilled(members) =>
        KeyRefusesValue(Holding(s, members), last);
      case Broken =>
    }
  }

  /** From the start of an object, or after some members that were taken for outermost ones. */
  lemma {:induction false} MembersRead(s: State, start: Reading, open: nat, members: seq<Member>)
    requires start == Silent ==> Skipping(s, open) && open > 0
    ensures Then(After(s, start), MemberEvents(members)) == After(s, ReadMembers(start, open, members))
    decreases members
  {
    if members != [] {
      var front, last := members[..|members| - 1], members[|members| - 1];
      assert members == front + [last];
      hide Step, Latest, Read, Events, Holding, Proper;
      MembersRead(s, start, open, front);
      if After(s, start).Accepted? {
        MemberRun(After(s, start).state, front, last);
      }
      match ReadMembers(start, open, front)
      case Silent =>
        NestedKey(s, last.key);
        ValueRead(s, open, last.value);
      case Spilled(taken) =>
        OutermostRead(s, taken, last);
      case Broken =>
    }
  }

  lemma NestedKey(s: State, key: string)
    requires s.phase == InNestedContainer
    ensures Run(s, [Key(key)]) == Accepted(s)
  {
    OneEvent(s, Key(key));
  }

  lemma OutermostRead(s: State, taken: seq<Member>, last: Member)
    ensures Then(Then(After(s, Spilled(taken)), [Key(last.key)]), Events(last.value))
         == After(s, ReadMembers(Spilled(taken), 0, [last]))
    decreases last.value, 1
  {
    hide Events, Read, Latest, Proper;
    assert [last][..0] == [];
    if Proper(taken) {
      var t := Holding(s, taken);
      var u := t.(phase := AfterKey(last.key));
      OneEvent(t, Key(last.key));
      AfterConcat(s, taken, [last]);
      if Wanted(last.key) {
        WantedValue(u, last.value);
        WantedHeld(t, last);
      } else {
        ValueRead(u, 0, last.value);
        SkippedHeld(t, last);
        match Read(0, last.value)
        case Spilled(more) =>
          AfterConcat(s, taken + [last], more);
          SameFound(u, t, Spilled(more));
        case _ =>
      }
    } else {
      NeverProper(s, taken, last);
    }
  }

  /** Every JSON value, however deep: the handler ends as its reading of the value says. */
  lemma HandlerReads(j: Json)
    ensures Run(START, Events(j)) == Judgement(j)
  {
    hide Run, ReadMembers;
    if j.Object? {
      assert After(START, Spilled([])) == Step(START, StartObject);
      MembersRead(START, Spilled([]), 0, j.members);
      Surrounded(START, StartObject, MemberEvents(j.members), EndObject);
    } else {
      OutermostObject(j);
    }
  }

  lemma OutermostObject(j: Json)
    requires !j.Object?
    ensures Run(START, Events(j)).Rejected?
  {
    assert Step(START, Events(j)[0]).Rejected?;
  }

  /** Inside a nested container, at most 2^32 deep, a whole value leaves the handler as it was. */
  lemma {:induction false} QuietValue(open: nat, j: Json)
    requires open > 0 && open + Nesting(j) <= WORD
    ensures Read(open, j) == Silent
    decreases j
  {
    match j
    case Plain(_) =>
    case Text(_) =>
    case Array(items) =>
      QuietItems(open + 1, items);
    case Object(members) =>
      QuietMembers(open + 1, members);
  }

  lemma {:induction false} QuietItems(open: nat, items: seq<Json>)
    requires open > 0 && open + ItemNesting(items) <= WORD
    ensures ReadItems(open, items) == Silent
    decreases items
  {
    if items != [] {
      QuietItems(open, items[..|items| - 1]);
      QuietValue(open, items[|items| - 1]);
    }
  }

  lemma {:induction false} QuietMembers(open: nat, members: seq<Member>)
    requires open > 0 && open + MemberNesting(members) <= WORD
    ensures ReadMembers(Silent, open, members) == Silent
    decreases members
  {
    if members != [] {
      QuietMembers(open, members[..|members| - 1]);
      QuietValue(open, members[|members| - 1].value);
    }
  }

  /** A value that nobody asked for is skipped as a whole. */
  lemma SkippedValue(j: Json)
    requires Nesting(j) <= WORD
    ensures Read(0, j) == Spilled([])
  {
    match j
    case Plain(_) =>
    case Text(_) =>
    case Array(items) =>
      QuietItems(1, items);
    case Object(members) =>
      QuietMembers(1, members);
  }

  /** Without a deeper value the handler sees exactly the members of the outermost object. */
  lemma {:induction false} OwnMembersOnly(members: seq<Member>)
    requires MemberNesting(members) <= WORD
    ensures ReadMembers(Spilled([]), 0, members) == Spilled(members)
    decreases members
  {
    if members != [] {
      var front, last := members[..|members| - 1], members[|members| - 1];
      OwnMembersOnly(front);
      SkippedValue(last.value);
      assert front + [last] + [] == members;
    }
  }

  /** The handler accepts exactly the objects whose challenge, origin and type members are strings, and then it
  holds the last of each.  The outermost container counts as one level of nesting.
   */
  lemma HandlerMeans(j: Json)
    requires Nesting(j) <= WORD + 1
    ensures Run(START, Events(j)) == Meaning(j)
  {
    hide Run, Events, Latest, Proper, ReadMembers;
    HandlerReads(j);
    if j.Object? {
      OwnMembersOnly(j.members);
    }
  }

  /** However deep the values are, the handler also sees every member of the outermost object itself. */
  lemma {:induction false} OwnMembersSeen(members: seq<Member>)
    ensures var r := ReadMembers(Spilled([]), 0, members);
            r.Spilled? ==> forall m :: m in members ==> m in r.members
    decreases members
  {
    if members != [] {
      hide Read;
      OwnMembersSeen(members[..|members| - 1]);
    }
  }

  /** An object that is not proper is never accepted, at any depth. */
  lemma ImproperIsRejected(j: Json)
    ensures Run(START, Events(j)).Accepted? ==> Meaning(j).Accepted?
  {
    hide Run, Events, Latest, ReadMembers, Wanted;
    HandlerReads(j);
    if j.Object? {
      OwnMembersSeen(j.members);
    }
  }

  /** Value by value: all that is not a proper object is judged rightly, and a proper object exactly if the members
  that it spills are proper too and leave the three strings as they are.
   */
  lemma ExactPerValue(j: Json)
    ensures Run(START, Events(j)) == Meaning(j) <==>
              !(j.Object? && Proper(j.members)) ||
              (var r := ReadMembers(Spilled([]), 0, j.members);
               && r.Spilled? && Proper(r.members)
               && Latest(r.members, "challenge", "") == Latest(j.members, "challenge", "")
               && Latest(r.members, "origin", "") == Latest(j.members, "origin", "")
               && Latest(r.members, "type", "") == Latest(j.members, "type", ""))
  {
    hide Run, Events, Latest, ReadMembers, Proper;
    HandlerReads(j);
    ImproperIsRejected(j);
  }

  /** Arrays in arrays, `n` deep. */
  function Deep(n: nat): Json {
    if n == 0 then Plain(Null) else Array([Deep(n - 1)])
  }

  lemma OneItem(open: nat, j: Json)
    ensures ReadItems(open, [j]) == Read(open, j) && ItemNesting([j]) == Nesting(j)
  {
    hide Read, Nesting;
    assert [j][..0] == [];
    assert ItemNesting([j]) == Max(ItemNesting([j][..0]), Nesting(j));
  }

  lemma OneMember(open: nat, m: Member)
    ensures ReadMembers(Silent, open, [m]) == Read(open, m.value) && MemberNesting([m]) == Nesting(m.value)
  {
    hide Read, Nesting;
    assert [m][..0] == [];
    assert MemberNesting([m]) == Max(MemberNesting([m][..0]), Nesting(m.value));
  }

  lemma {:induction false} DeepNesting(n: nat)
    ensures Nesting(Deep(n)) == n
  {
    if n > 0 {
      OneItem(0, Deep(n - 1));
      DeepNesting(n - 1);
    }
  }

  /** The counter returns to zero where it wraps, and the handler leaves the nested container too early. */
  lemma {:induction false} LeavesTooEarly(open: nat, n: nat)
    requires open > 0 && n > 0 && open + n == WORD + 1
    ensures Read(open, Deep(n)) == if n == 1 then Spilled([]) else Broken
    decreases n
  {
    OneItem(open + 1, Deep(n - 1));
    if n > 1 {
      LeavesTooEarly(open + 1, n - 1);
    }
  }

  /** The 2^32 levels below the outermost object are exactly what the 32-bit counter is good for. */
  lemma ExactNesting(bound: nat)
    ensures (forall j | Nesting(j) <= bound :: Run(START, Events(j)) == Meaning(j)) <==> bound <= 0x1_0000_0001
  {
    if bound <= WORD + 1 {
      forall j | Nesting(j) <= bound ensures Run(START, Events(j)) == Meaning(j) {
        HandlerMeans(j);
      }
    } else {
      TooDeep();
    }
  }

  lemma XIsNotNamed()
    ensures CString("x") == "x"
  {
    WholeCString("x");
  }

  /** A single member that nobody asks for. */
  lemma OneSkipped(value: Json)
    ensures var m := Member("x", value);
            && Proper([m]) && Found([m]) == Found([])
            && ReadMembers(Spilled([]), 0, [m])
            == match Read(0, value) case Spilled(more) => Spilled([m] + more) case _ => Broken
  {
    hide Read, CString;
    XIsNotNamed();
    var m := Member("x", value);
    assert [m][..0] == [];
    assert [] + [m] == [m];
  }

  lemma TooDeep()
    ensures exists j :: Nesting(j) == 0x1_0000_0002 && Meaning(j).Accepted? && Run(START, Events(j)).Rejected?
  {
    var value := Deep(WORD + 1);
    var m := Member("x", value);
    OneMember(0, m);
    DeepNesting(WORD + 1);
    OneSkipped(value);
    OneItem(1, Deep(WORD));
    LeavesTooEarly(1, WORD);
    assert value == Array([Deep(WORD)]);
    assert Read(0, value) == Broken;
    hide Deep, Read, Run, Events;
    HandlerReads(Object([m]));
  }

  /** Objects in objects below the outermost one, the innermost with a challenge of its own. */
  function Buried(n: nat, text: string): seq<Member> {
    if n == 0 then [Member("x", Array([])), Member("challenge", Text(text))]
    else [Member("x", Object(Buried(n - 1, text)))]
  }

  lemma {:induction false} BuriedNesting(n: nat, text: string)
    ensures MemberNesting(Buried(n, text)) == n + 1
  {
    if n == 0 {
      var members := Buried(n, text);
      assert members[..1] == [Member("x", Array([]))];
      OneMember(0, members[0]);
      assert Nesting(Array([])) == 1;
    } else {
      BuriedNesting(n - 1, text);
      OneMember(0, Member("x", Object(Buried(n - 1, text))));
    }
  }

  /** Where the counter has wrapped, the end of the first container looks like the end of the last one, and the
  challenge that follows is taken. */
  lemma {:induction false} BuriedTaken(open: nat, n: nat, text: string)
    requires open > 0 && open + n == WORD
    ensures ReadMembers(Silent, open, Buried(n, text)) == Spilled([Member("challenge", Text(text))])
    decreases n
  {
    hide CString, Wanted;
    var members := Buried(n, text);
    if n == 0 {
      assert members[..1] == [members[0]];
      OneMember(open, members[0]);
      ChallengeIsNamed();
      assert [] + [members[1]] == [members[1]];
    } else {
      BuriedTaken(open + 1, n - 1, text);
      OneMember(open, members[0]);
    }
  }

  /** Beyond the bound the answer can also be wrong without being a rejection: an object without a challenge of its
  own is accepted with one that is 2^32 levels further down.
   */
  lemma TakenFromBelow(text: string)
    ensures exists j :: Nesting(j) == 0x1_0000_0002 && Meaning(j) == Accepted(Found([]))
                     && Run(START, Events(j)) == Accepted(Found([]).(challenge := text))
  {
    var value := Object(Buried(WORD - 1, text));
    var m, c := Member("x", value), Member("challenge", Text(text));
    BuriedNesting(WORD - 1, text);
    OneMember(0, m);
    OneSkipped(value);
    BuriedTaken(1, WORD - 1, text);
    assert Read(0, value) == Spilled([c]);
    ChallengeHeld(m, c, text);
    hide Buried, Read, Run, Events, Latest, ReadMembers;
    HandlerReads(Object([m]));
    assert Meaning(Object([m])) == Accepted(Found([]));
  }

  lemma ChallengeIsNamed()
    ensures Wanted("challenge") && AfterKey("challenge") == ExpectChallengeValue
  {
    WholeCString("challenge");
  }

  lemma ChallengeHeld(m: Member, c: Member, text: string)
    requires Proper([m]) && Found([m]) == Found([]) && c == Member("challenge", Text(text))
    ensures After(START, Spilled([m] + [c])) == Accepted(Found([]).(challenge := text))
  {
    hide Latest, Proper;
    AfterConcat(START, [m], [c]);
    ChallengeIsNamed();
    hide CString, Holding;
    WantedHeld(Found([]), c);
  }

  function Opened(events: seq<Event>): nat {
    if events == [] then 0
    else Opened(events[..|events| - 1]) + if events[|events| - 1] in [StartObject, StartArray] then 1 else 0
  }

  /** The depth is nonzero exactly inside a nested container. */
  predicate Consistent(s: State) { s.depth < WORD && (s.depth != 0 <==> s.phase == InNestedContainer) }

  lemma StepKeepsDepth(s: State, e: Event)
    requires Consistent(s) && Step(s, e).Accepted?
    requires e in [StartObject, StartArray] ==> s.depth + 1 < WORD
    ensures var t := Step(s, e).state;
            && Consistent(t) && t.phase != ExpectFirstObjectStart
            && t.depth <= s.depth + 1
            && (e !in [StartObject, StartArray] || s.phase == ExpectFirstObjectStart ==> t.depth <= s.depth)
  {
  }

  /** For any events at all, even of no JSON text, with at most 2^32 openings. */
  lemma {:induction false} DepthTellsNested(events: seq<Event>)
    requires Opened(events) <= WORD && Run(START, events).Accepted?
    ensures var s := Run(START, events).state;
            && (s.depth != 0 <==> s.phase == InNestedContainer)
            && (s.phase == ExpectFirstObjectStart ==> events == [])
            && s.depth <= Opened(events)
            && (events != [] ==> s.depth < Opened(events))
  {
    if events != [] {
      var front, last := events[..|events| - 1], events[|events| - 1];
      assert events == front + [last];
      hide Step;
      RunConcat(START, front, [last]);
      DepthTellsNested(front);
      var s := Run(START, front).state;
      OneEvent(s, last);
      StepKeepsDepth(s, last);
    }
  }

  /** The handler object. */
  class JsonHandler {
    var foundChallenge: string
    var foundOrigin: string
    var foundType: string
    var currentState: Phase
    var currentNestedContainerDepth: nat

    ghost function Abstract(): State
      reads this
    {
      State(currentState, currentNestedContainerDepth, foundChallenge, foundOrigin, foundType)
    }

    /** The new state is the one that the answer of the event carries; a rejected event changes nothing. */
    ghost predicate Is(s: State, o: Outcome, ok: bool)
      reads this
    {
      ok == o.Accepted? && Abstract() == if ok then o.state else s
    }

    constructor ()
      ensures Abstract() == START
    {
      foundChallenge, foundOrigin, foundType := "", "", "";
      currentState, currentNestedContainerDepth := ExpectFirstObjectStart, 0;
    }

    method BasicStuff() returns (ok: bool)
      modifies this
      ensures Is(old(Abstract()), OnBasic(old(Abstract())), ok)
    {
      if currentState == InNestedContainer {
        return true;
      }
      if currentState == ExpectFirstObjectDontCareValue {
        currentState := ExpectFirstObjectKey;
        return true;
      }
      return false;
    }

    method String(text: string) returns (ok: bool)
      modifies this
      ensures Is(old(Abstract()), OnString(old(Abstract()), text), ok)
    {
      match currentState
      case ExpectFirstObjectStart | ExpectFirstObjectKey =>
        return false;
      case ExpectChallengeValue =>
        foundChallenge, currentState := text, ExpectFirstObjectKey;
        return true;
      case ExpectOriginValue =>
        foundOrigin, currentState := text, ExpectFirstObjectKey;
        return true;
      case ExpectTypeValue =>
        foundType, currentState := text, ExpectFirstObjectKey;
        return true;
      case ExpectFirstObjectDontCareValue =>
        currentState := ExpectFirstObjectKey;
        return true;
      case InNestedContainer =>
        return true;
    }

    method Key(text: string) returns (ok: bool)
      modifies this
      ensures Is(old(Abstract()), OnKey(old(Abstract()), text), ok)
    {
      match currentState
      case ExpectFirstObjectKey =>
        var name := CString(text);
        if name == "challenge" {
          currentState := ExpectChallengeValue;
        } else if name == "origin" {
          currentState := ExpectOriginValue;
        } else if name == "type" {
          currentState := ExpectTypeValue;
        } else {
          currentState := ExpectFirstObjectDontCareValue;
        }
        return true;
      case InNestedContainer =>
        return true;
      case _ =>
        return false;
    }

    method StartObject() returns (ok: bool)
      modifies this
      ensures Is(old(Abstract()), OnStartObject(old(Abstract())), ok)
    {
      match currentState
      case ExpectFirstObjectStart =>
        currentState := ExpectFirstObjectKey;
        return true;
      case ExpectFirstObjectDontCareValue | InNestedContainer =>
        currentState := InNestedContainer;
        currentNestedContainerDepth := (currentNestedContainerDepth + 1) % WORD;
        return true;
      case _ =>
        return false;
    }

    method LeaveContainer()
      modifies this
      ensures Abstract() == Leave(old(Abstract()))
    {
      currentNestedContainerDepth := (currentNestedContainerDepth + WORD - 1) % WORD;
      if currentNestedContainerDepth == 0 {
        currentState := ExpectFirstObjectKey;
      }
    }

    method EndObject() returns (ok: bool)
      modifies this
      ensures Is(old(Abstract()), OnEndObject(old(Abstract())), ok)
    {
      match currentState
      case InNestedContainer =>
        LeaveContainer();
        return true;
      case ExpectFirstObjectKey =>
        return true;
      case _ =>
        return false;
    }

    method StartArray() returns (ok: bool)
      modifies this
      ensures Is(old(Abstract()), OnStartArray(old(Abstract())), ok)
    {
      match currentState
      case ExpectFirstObjectDontCareValue | InNestedContainer =>
        currentState := InNestedContainer;
        currentNestedContainerDepth := (currentNestedContainerDepth + 1) % WORD;
        return true;
      case _ =>
        return false;
    }

    method EndArray() returns (ok: bool)
      modifies this
      ensures Is(old(Abstract()), OnEndArray(old(Abstract())), ok)
    {
      if currentState == InNestedContainer {
        LeaveContainer();
        return true;
      }
      return false;
    }

    method Handle(e: Event) returns (ok: bool)
      modifies this
      ensures Is(old(Abstract()), Step(old(Abstract()), e), ok)
    {
      match e
      case Basic(_) => ok := BasicStuff();
      case String(text) => ok := String(text);
      case Key(text) => ok := Key(text);
      case StartObject => ok := StartObject();
      case EndObject => ok := EndObject();
      case StartArray => ok := StartArray();
      case EndArray => ok := EndArray();
    }
  }

  /** The reader at work on the text of a JSON value. */
  method Parse(j: Json, handler: JsonHandler) returns (ok: bool)
    requires handler.Abstract() == START
    modifies handler
    ensures ok <==> Judgement(j).Accepted?
    ensures ok ==> j.Object? && Proper(j.members) && handler.Abstract() == Judgement(j).state
    ensures Nesting(j) <= WORD + 1 ==> (ok <==> j.Object? && Proper(j.members))
    ensures Nesting(j) <= WORD + 1 && ok
            ==> && handler.foundChallenge == Latest(j.members, "challenge", "")
                && handler.foundOrigin == Latest(j.members, "origin", "")
                && handler.foundType == Latest(j.members, "type", "")
  {
    var events, i := Events(j), 0;
    HandlerReads(j);
    ImproperIsRejected(j);
    if Nesting(j) <= WORD + 1 {
      HandlerMeans(j);
    }
    hide Step, Proper, Latest, Events, Nesting, ReadMembers, Judgement;
    while i < |events|
      invariant 0 <= i <= |events| && Run(handler.Abstract(), events[i..]) == Judgement(j)
    {
      var accepted := handler.Handle(events[i]);
      if !accepted {
        return false;
      }
      i := i + 1;
    }
    return true;
  }
}

/** Model messages: roles, parts, sizes, and the pairing of tool results with the calls they answer. */
module Messages {

  datatype Role = System | User | Assistant | Tool
  /** A tool result's payload: plain text, or a structured value with the length of its JSON. */
  datatype Output = Text(value: string) | Structured(jsonLength: nat)
  datatype Part = ToolCall(id: string) | ToolResult(id: string, output: Output) | Other(content: string)
  datatype Content = Str(text: string) | Parts(parts: seq<Part>)
  datatype Message = Message(role: Role, content: Content)

  function OutputSize(o: Output): nat {
    match o
    case Text(value) => |value|
    case Structured(n) => n
  }

  /** Length of the serialized parts of a message; how it is serialized does not matter here. */
  type Serializer = seq<Part> -> nat

  function Chars(ms: seq<Message>, json: Serializer): nat {
    if ms == [] then 0
    else
      var m := ms[|ms| - 1];
      Chars(ms[..|ms| - 1], json) + if m.content.Str? then |m.content.text| else json(m.content.parts)
  }

  /** About four characters to a token, rounded up. */
  function EstimateTokens(ms: seq<Message>, json: Serializer): nat {
    (Chars(ms, json) + 3) / 4
  }

  // ------------------------------------------------------------------------------------- pairing

  predicate Calls(m: Message, id: string) {
    m.role == Assistant && m.content.Parts? && ToolCall(id) in m.content.parts
  }

  predicate Answers(m: Message, id: string) {
    m.role == Tool && m.content.Parts?
    && exists k :: 0 <= k < |m.content.parts| && m.content.parts[k].ToolResult? && m.content.parts[k].id == id
  }

  /** Only tool messages stand between message `j`, which makes the call, and message `i`. */
  ghost predicate CalledAt(ms: seq<Message>, i: nat, j: int, id: string)
    requires i < |ms|
  {
    0 <= j < i && Calls(ms[j], id) && forall x :: j < x < i ==> ms[x].role == Tool
  }

  /** Every tool result follows the assistant message with its call, with only tool messages between. */
  ghost predicate Paired(ms: seq<Message>) {
    forall i, id :: 0 <= i < |ms| && Answers(ms[i], id) ==> exists j :: CalledAt(ms, i, j, id)
  }

  /** A position at which the messages can be cut: nothing behind it answers a call in front of it. */
  predicate CutAllowed(ms: seq<Message>, p: int) {
    p <= 0 || p >= |ms| || ms[p].role != Tool
  }

  lemma SuffixPaired(ms: seq<Message>, p: nat)
    requires p <= |ms| && Paired(ms) && CutAllowed(ms, p)
    ensures Paired(ms[p..])
  {
    hide Calls, Answers;
    forall i, id | 0 <= i < |ms[p..]| && Answers(ms[p..][i], id) ensures exists j :: CalledAt(ms[p..], i, j, id) {
      assert ms[p..][i] == ms[p + i];
      var j :| CalledAt(ms, p + i, j, id);
      ToolOnly(ms[p + i], id);
      assert p == 0 || ms[p].role != Tool;
      assert CalledAt(ms[p..], i, j - p, id);
    }
  }

  /** Cutting at `p` separates a tool result behind it from a call in front of it. */
  ghost predicate CutsAnswer(ms: seq<Message>, p: nat) {
    exists i, id :: AnsweredBehind(ms, p, i, id)
  }

  ghost predicate AnsweredBehind(ms: seq<Message>, p: nat, i: int, id: string) {
    p <= i < |ms| && Answers(ms[i], id) && forall x :: p <= x <= i ==> ms[x].role == Tool
  }

  /** A suffix behind user messages is paired if and only if the cut separates no answer from its call. */
  lemma CutPairedIff(head: seq<Message>, ms: seq<Message>, p: nat)
    requires p <= |ms| && Paired(ms) && forall m :: m in head ==> m.role == User
    ensures Paired(head + ms[p..]) <==> !CutsAnswer(ms, p)
  {
    hide Calls, Answers;
    var r := head + ms[p..];
    if CutsAnswer(ms, p) {
      var i, id :| AnsweredBehind(ms, p, i, id);
      AnswerLost(head, ms, p, i, id);
    } else {
      forall k | 0 <= k < |head| ensures r[k].role == User { assert r[k] in head; }
      forall i, id | 0 <= i < |r| && Answers(r[i], id) ensures exists j :: CalledAt(r, i, j, id) {
        ToolOnly(r[i], id);
        var n := i - |head| + p;
        assert r[i] == ms[n];
        var j :| CalledAt(ms, n, j, id);
        assert !AnsweredBehind(ms, p, n, id);
        assert j >= p;
        assert CalledAt(r, i, j - p + |head|, id);
      }
    }
  }

  lemma AnswerLost(head: seq<Message>, ms: seq<Message>, p: nat, i: int, id: string)
    requires p <= |ms| && AnsweredBehind(ms, p, i, id) && forall m :: m in head ==> m.role == User
    ensures !Paired(head + ms[p..])
  {
    var r, n := head + ms[p..], i - p + |head|;
    assert r[n] == ms[i];
    forall j ensures !CalledAt(r, n, j, id) {
      if 0 <= j < |head| {
        assert r[j] in head;
      } else if |head| <= j < n {
        assert r[j] == ms[j - |head| + p];
      }
    }
  }

  lemma AllowedCutsNothing(ms: seq<Message>, p: nat)
    requires Paired(ms) && CutAllowed(ms, p)
    ensures !CutsAnswer(ms, p)
  {
    hide Calls, Answers;
    forall i, id ensures !AnsweredBehind(ms, p, i, id) {
      if AnsweredBehind(ms, p, i, id) {
        var j :| CalledAt(ms, i, j, id);
        CallerIsAssistant(ms[j], id);
      }
    }
  }

  lemma CallerIsAssistant(m: Message, id: string)
    ensures Calls(m, id) ==> m.role == Assistant
  {}

  lemma ToolOnly(m: Message, id: string)
    ensures Answers(m, id) ==> m.role == Tool
  {}

  lemma ConcatPaired(a: seq<Message>, b: seq<Message>)
    requires Paired(a) && Paired(b)
    ensures Paired(a + b)
  {
    hide Calls, Answers;
    var ms := a + b;
    forall i, id | 0 <= i < |ms| && Answers(ms[i], id) ensures exists j :: CalledAt(ms, i, j, id) {
      if i < |a| {
        var j :| CalledAt(a, i, j, id);
        assert CalledAt(ms, i, j, id);
      } else {
        var j :| CalledAt(b, i - |a|, j, id);
        assert CalledAt(ms, i, j + |a|, id);
      }
    }
  }

  /** Messages that are no tool messages need no calls. */
  lemma NoToolsPaired(ms: seq<Message>)
    requires forall m :: m in ms ==> m.role != Tool
    ensures Paired(ms)
  {
    forall i | 0 <= i < |ms| ensures ms[i].role != Tool {
      assert ms[i] in ms;
    }
  }

  /** Rewriting messages one by one without touching roles, calls and answered ids keeps the pairing. */
  ghost predicate SameShape(m: Message, m': Message) {
    m'.role == m.role && forall id :: (Calls(m', id) <==> Calls(m, id)) && (Answers(m', id) <==> Answers(m, id))
  }

  lemma SameShapePaired(ms: seq<Message>, ms': seq<Message>)
    requires Paired(ms) && |ms'| == |ms| && forall i :: 0 <= i < |ms| ==> SameShape(ms[i], ms'[i])
    ensures Paired(ms')
  {
    hide Calls, Answers;
    forall i, id | 0 <= i < |ms'| && Answers(ms'[i], id) ensures exists j :: CalledAt(ms', i, j, id) {
      var j :| CalledAt(ms, i, j, id);
      assert CalledAt(ms', i, j, id);
    }
  }
}

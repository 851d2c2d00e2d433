/**
 * The render graph of the compositor: an ordered list of nodes whose input
 * references (a node name, a node handle, or an explicit `{node, pin}`
 * object) are resolved into concrete (producer node, output pin) links.
 * Nodes are objects: the graph finds them by identity, and resolving an
 * explicit reference without a pin writes the chosen pin back into that
 * (possibly shared) reference object.
 */
module CompositorGraph {
  import opened Wrappers

  /** An output of a node: its key, in `Object.keys` order, and whether its value is truthy. */
  datatype OutputPin = OutputPin(key: string, enabled: bool)

  /** What a reference names as producer: a node name, or a node handle. */
  datatype Producer = ByName(name: string) | ByHandle(node: Node)

  /**
   * The `node` field of an explicit reference object.  A falsy one (the empty
   * name) makes the source treat the reference object itself as a node, which
   * throws; such references are outside the model.
   */
  type RefProducer = p: Producer | !(p.ByName? && p.name == "") witness ByName("_")

  /** The value of one input of a node: nothing, a bare producer, or a reference object. */
  datatype Input = Unwired | Bare(producer: Producer) | Explicit(ref: PinRef)

  /** One entry of a node's `inputs` object, in key order. */
  datatype InputPin = InputPin(name: string, input: Input)

  /** What `findPin` returns on success: the producer node and its output pin. */
  datatype ResolvedPin = ResolvedPin(node: Node, pin: string)

  /** A call the graph makes on a node, recorded in order. */
  datatype NodeCall = ClearCall(target: Node) | LinkCall(target: Node, input: string, link: ResolvedPin)

  /** An explicit `{node, pin}` reference object; the empty pin stands for a missing or falsy `pin`. */
  class PinRef {
    const node: RefProducer
    var pin: string

    constructor (node: RefProducer, pin: string)
      ensures this.node == node && this.pin == pin
    {
      this.node := node;
      this.pin := pin;
    }
  }

  /**
   * The node contract the graph relies on: a name, ordered inputs and
   * outputs, and the resolved links, which `Clear` drops and `Link` sets
   * one at a time.
   */
  class Node {
    const name: string
    const inputs: seq<InputPin>
    const outputs: seq<OutputPin>
    var links: map<string, ResolvedPin>

    constructor (name: string, inputs: seq<InputPin>, outputs: seq<OutputPin>)
      ensures this.name == name && this.inputs == inputs && this.outputs == outputs
      ensures links == map[]
    {
      this.name := name;
      this.inputs := inputs;
      this.outputs := outputs;
      links := map[];
    }

    method Clear()
      modifies this
      ensures links == map[]
    {
      links := map[];
    }

    method Link(inputName: string, producer: Node, pin: string)
      modifies this
      ensures links == old(links)[inputName := ResolvedPin(producer, pin)]
    {
      links := links[inputName := ResolvedPin(producer, pin)];
    }
  }

  /** JavaScript truthiness of an input value: unset and the empty name are falsy. */
  predicate Truthy(input: Input)
  {
    match input
    case Unwired => false
    case Bare(p) => !(p.ByName? && p.name == "")
    case Explicit(_) => true
  }

  /** The node `getNodeByName` returns: the first one carrying the name. */
  function FirstNamed(nodes: seq<Node>, name: string): Node?
  {
    if nodes == [] then null
    else if nodes[0].name == name then nodes[0]
    else FirstNamed(nodes[1..], name)
  }

  /** The node the name lookup of `findPin` ends with: its loop has no break, so the last one. */
  function LastNamed(nodes: seq<Node>, name: string): Node?
  {
    if nodes == [] then null
    else if nodes[|nodes| - 1].name == name then nodes[|nodes| - 1]
    else LastNamed(nodes[..|nodes| - 1], name)
  }

  /** The producer node a reference designates, or null when a name matches no node. */
  function ProducerOf(nodes: seq<Node>, p: Producer): Node?
  {
    match p
    case ByName(s) => LastNamed(nodes, s)
    case ByHandle(n) => n
  }

  /** `Object.keys(outputs)[0]`; the empty pin when there is no output. */
  function FirstKey(outputs: seq<OutputPin>): string
  {
    if outputs == [] then "" else outputs[0].key
  }

  /** Whether `outputs[pin]` is truthy (the first entry with that key decides). */
  predicate OutputEnabled(outputs: seq<OutputPin>, pin: string)
  {
    if outputs == [] then false
    else if outputs[0].key == pin then outputs[0].enabled
    else OutputEnabled(outputs[1..], pin)
  }

  /** The pin `findPin` uses: the requested one, or the producer's first output key. */
  function ChosenPin(producer: Node, requested: string): string
  {
    if requested == "" then FirstKey(producer.outputs) else requested
  }

  /** The result of `findPin` once the producer and the requested pin are known. */
  function ResolveAt(producer: Node?, requested: string): Option<ResolvedPin>
  {
    if producer == null then None
    else
      var pin := ChosenPin(producer, requested);
      if OutputEnabled(producer.outputs, pin) then Some(ResolvedPin(producer, pin)) else None
  }

  /** The reference objects an input value points to. */
  function RefOf(input: Input): set<PinRef>
  {
    if input.Explicit? then {input.ref} else {}
  }

  /** What `findPin` returns for a reference object in the current state. */
  function RefResolution(nodes: seq<Node>, r: PinRef): Option<ResolvedPin>
    reads r
  {
    ResolveAt(ProducerOf(nodes, r.node), r.pin)
  }

  /** What `findPin` returns for an input in the current state. */
  function Resolve(nodes: seq<Node>, input: Input): Option<ResolvedPin>
    reads RefOf(input)
  {
    match input
    case Unwired => None
    case Bare(p) => ResolveAt(ProducerOf(nodes, p), "")
    case Explicit(r) => RefResolution(nodes, r)
  }

  /** The `pin` of a reference object after `findPin` has written the default back into it. */
  function PinAfter(nodes: seq<Node>, r: PinRef): string
    reads r
  {
    var producer := ProducerOf(nodes, r.node);
    if producer != null && r.pin == "" then FirstKey(producer.outputs) else r.pin
  }

  /** The reference objects of a list of inputs. */
  function RefsIn(ins: seq<InputPin>): set<PinRef>
  {
    set k | 0 <= k < |ins| && ins[k].input.Explicit? :: ins[k].input.ref
  }

  /** The reference objects of every input of every node of the list. */
  function AllRefs(nodes: seq<Node>): set<PinRef>
  {
    set n, r | n in nodes && r in RefsIn(n.inputs) :: r
  }

  /** What each of the given reference objects resolves to in the current state. */
  function RefTable(nodes: seq<Node>, refs: set<PinRef>): map<PinRef, Option<ResolvedPin>>
    reads refs
  {
    map r | r in refs :: RefResolution(nodes, r)
  }

  /** Whether the table records what every reference object of the list resolves to now. */
  predicate Agrees(nodes: seq<Node>, table: map<PinRef, Option<ResolvedPin>>)
    reads AllRefs(nodes)
  {
    AllRefs(nodes) <= table.Keys &&
    forall r :: r in AllRefs(nodes) ==> RefResolution(nodes, r) == table[r]
  }

  /** The pin each of the given reference objects settles on once `findPin` has visited it. */
  function PinTable(nodes: seq<Node>, refs: set<PinRef>): (after: map<PinRef, string>)
    reads refs
    ensures after.Keys == refs
    ensures forall r :: r in refs ==> after[r] == PinAfter(nodes, r)
  {
    map r | r in refs :: PinAfter(nodes, r)
  }

  /**
   * Whether `after` records the pin every reference object of the list
   * settles on once `findPin` has visited it, and every object in `done`
   * already holds that pin.  A visit leaves the settled pin as it is, so
   * the record stays true however often an object is visited.
   */
  predicate PinsSettle(nodes: seq<Node>, after: map<PinRef, string>, done: set<PinRef>)
    reads AllRefs(nodes)
  {
    AllRefs(nodes) <= after.Keys &&
    forall r :: r in AllRefs(nodes) ==> PinAfter(nodes, r) == after[r] && (r in done ==> r.pin == after[r])
  }

  /** `Resolve`, with what reference objects resolve to read from a table (nothing, for one it lacks). */
  function ResolveWith(nodes: seq<Node>, input: Input, table: map<PinRef, Option<ResolvedPin>>): Option<ResolvedPin>
  {
    match input
    case Unwired => None
    case Bare(p) => ResolveAt(ProducerOf(nodes, p), "")
    case Explicit(r) => if r in table then table[r] else None
  }

  /** What `findPin` returns for each of the inputs, in order, reference objects read from a table. */
  function ResolutionsWith(nodes: seq<Node>, ins: seq<InputPin>, table: map<PinRef, Option<ResolvedPin>>): (res: seq<Option<ResolvedPin>>)
    ensures |res| == |ins|
    ensures forall k :: 0 <= k < |ins| ==> res[k] == ResolveWith(nodes, ins[k].input, table)
  {
    if ins == [] then []
    else ResolutionsWith(nodes, ins[..|ins| - 1], table) + [ResolveWith(nodes, ins[|ins| - 1].input, table)]
  }

  /** What `findPin` returns for each of the inputs, in order, in the current state. */
  function Resolutions(nodes: seq<Node>, ins: seq<InputPin>): (res: seq<Option<ResolvedPin>>)
    reads RefsIn(ins)
    ensures |res| == |ins|
    ensures forall k :: 0 <= k < |ins| ==> res[k] == Resolve(nodes, ins[k].input)
  {
    var res := ResolutionsWith(nodes, ins, RefTable(nodes, RefsIn(ins)));
    assert forall k :: 0 <= k < |ins| ==> res[k] == Resolve(nodes, ins[k].input) by {
      forall k | 0 <= k < |ins| ensures res[k] == Resolve(nodes, ins[k].input) {
        if ins[k].input.Explicit? {
          assert ins[k].input.ref in RefsIn(ins);
        }
      }
    }
    res
  }

  /**
   * The links made by processing the inputs in order, `res` giving what
   * each resolves to: each truthy input that resolves sets (or overwrites)
   * the link of its name.
   */
  function LinksOver(ins: seq<InputPin>, res: seq<Option<ResolvedPin>>): map<string, ResolvedPin>
    requires |res| == |ins|
  {
    if ins == [] then map[]
    else
      var last, r := ins[|ins| - 1], res[|res| - 1];
      var before := LinksOver(ins[..|ins| - 1], res[..|res| - 1]);
      if Truthy(last.input) && r.Some? then before[last.name := r.value] else before
  }

  /** The `link` calls processing the inputs in order makes on node n, `res` giving what each resolves to. */
  function CallsOver(n: Node, ins: seq<InputPin>, res: seq<Option<ResolvedPin>>): seq<NodeCall>
    requires |res| == |ins|
  {
    if ins == [] then []
    else
      var last, r := ins[|ins| - 1], res[|res| - 1];
      CallsOver(n, ins[..|ins| - 1], res[..|res| - 1]) +
      if Truthy(last.input) && r.Some? then [LinkCall(n, last.name, r.value)] else []
  }

  /** The links a node with inputs `ins` holds once `update` has processed them. */
  function LinksFrom(nodes: seq<Node>, ins: seq<InputPin>): map<string, ResolvedPin>
    reads RefsIn(ins)
  {
    LinksOver(ins, Resolutions(nodes, ins))
  }

  /** The links a listed node holds once `update` has processed its inputs, reference objects read from a table. */
  function LinksWith(nodes: seq<Node>, n: Node, table: map<PinRef, Option<ResolvedPin>>): map<string, ResolvedPin>
  {
    LinksOver(n.inputs, ResolutionsWith(nodes, n.inputs, table))
  }

  /** The `link` calls `update` makes on a listed node, reference objects read from a table. */
  function CallsWith(nodes: seq<Node>, n: Node, table: map<PinRef, Option<ResolvedPin>>): seq<NodeCall>
  {
    CallsOver(n, n.inputs, ResolutionsWith(nodes, n.inputs, table))
  }

  /** The `link` calls of the second phase of `update` for the first i nodes of the list, reference objects read from a table. */
  function LinkCallsWith(nodes: seq<Node>, i: nat, table: map<PinRef, Option<ResolvedPin>>): seq<NodeCall>
    requires i <= |nodes|
  {
    if i == 0 then []
    else
      LinkCallsWith(nodes, i - 1, table) + CallsWith(nodes, nodes[i - 1], table)
  }

  /** The `link` calls of the second phase of `update`, in order, in the current state. */
  function LinkCalls(nodes: seq<Node>): seq<NodeCall>
    reads AllRefs(nodes)
  {
    LinkCallsWith(nodes, |nodes|, RefTable(nodes, AllRefs(nodes)))
  }

  /** The `clear` calls of the first phase of `update`, one per list entry, in order. */
  function ClearCalls(ns: seq<Node>): seq<NodeCall>
  {
    if ns == [] then [] else ClearCalls(ns[..|ns| - 1]) + [ClearCall(ns[|ns| - 1])]
  }

  /** `Array.prototype.indexOf` by identity: the first position of x, or -1. */
  function IndexOf(s: seq<Node>, x: Node): (r: int)
    ensures -1 <= r < |s|
    ensures r == -1 <==> x !in s
    ensures 0 <= r ==> s[r] == x && forall k :: 0 <= k < r ==> s[k] != x
  {
    if s == [] then -1
    else if s[0] == x then 0
    else
      var r := IndexOf(s[1..], x);
      if r == -1 then -1 else r + 1
  }

  /**
   * `Array.prototype.splice(start, 1)` on the list: a negative start counts
   * from the end (clamped at 0), a start past the end removes nothing.
   */
  function SpliceOne(s: seq<Node>, start: int): seq<Node>
  {
    var k := if start < 0 then (if |s| + start < 0 then 0 else |s| + start)
             else (if start > |s| then |s| else start);
    if k < |s| then s[..k] + s[k + 1..] else s
  }

  /** The list without the first occurrence of x; the list itself when x is absent. */
  function WithoutFirst(s: seq<Node>, x: Node): seq<Node>
  {
    var i := IndexOf(s, x);
    if i == -1 then s else s[..i] + s[i + 1..]
  }

  class Graph {
    var nodes: seq<Node>
    var dirty: bool
    /** Every `clear` and `link` call the graph has made on a node, in order. */
    ghost var calls: seq<NodeCall>

    constructor ()
      ensures nodes == [] && !dirty && calls == []
    {
      nodes := [];
      dirty := false;
      calls := [];
    }

    /** Appends the node: earlier entries keep their places, and the graph is marked dirty. */
    method AddNode(node: Node)
      modifies this
      ensures nodes == old(nodes) + [node]
      ensures dirty && calls == old(calls)
    {
      nodes := nodes + [node];
      dirty := true;
    }

    /** `nodes.splice(nodes.indexOf(node), 1)`, then marks the graph dirty. */
    method RemoveNode(node: Node)
      modifies this
      ensures nodes == SpliceOne(old(nodes), IndexOf(old(nodes), node))
      ensures dirty && calls == old(calls)
    {
      nodes := SpliceOne(nodes, IndexOf(nodes, node));
      dirty := true;
    }

    /** Removal as evidently intended: an absent node leaves the list alone. */
    method RemoveNodeChecked(node: Node)
      modifies this
      ensures nodes == WithoutFirst(old(nodes), node)
      ensures dirty && calls == old(calls)
    {
      var i := IndexOf(nodes, node);
      if i != -1 {
        nodes := SpliceOne(nodes, i);
      }
      dirty := true;
    }

    /** The first node carrying the name, or null (`undefined`) when none does. */
    method GetNodeByName(name: string) returns (r: Node?)
      ensures r == FirstNamed(nodes, name)
    {
      for i := 0 to |nodes|
        invariant FirstNamed(nodes, name) == FirstNamed(nodes[i..], name)
      {
        assert nodes[i..][1..] == nodes[i + 1..];
        if nodes[i].name == name {
          return nodes[i];
        }
      }
      return null;
    }

    /**
     * Resolves one (non-undefined) input value.  A bare value stands for its
     * producer; a name is looked up with the last match winning; a missing
     * pin becomes the producer's first output key and, for a reference
     * object, is written back into it; the result exists only when that
     * output is truthy.  The write-back never changes what the reference
     * resolves to.
     */
    method FindPin(input: Input) returns (r: Option<ResolvedPin>)
      requires !input.Unwired?
      modifies RefOf(input)
      ensures r == old(Resolve(nodes, input))
      ensures r == Resolve(nodes, input)
      ensures input.Explicit? ==> input.ref.pin == old(PinAfter(nodes, input.ref))
    {
      var producer := if input.Explicit? then input.ref.node else input.producer;
      var pin := if input.Explicit? then input.ref.pin else "";
      var node: Node? := null;
      match producer {
        case ByName(s) =>
          for i := 0 to |nodes|
            invariant node == LastNamed(nodes[..i], s)
          {
            assert nodes[..i + 1][..i] == nodes[..i];
            if nodes[i].name == s {
              node := nodes[i];
            }
          }
          assert nodes[..|nodes|] == nodes;
        case ByHandle(h) =>
          node := h;
      }
      if node != null {
        if pin == "" {
          pin := FirstKey(node.outputs);
          if input.Explicit? {
            input.ref.pin := pin;
          }
        }
        if OutputEnabled(node.outputs, pin) {
          return Some(ResolvedPin(node, pin));
        }
      }
      return None;
    }

    /**
     * One step of the second phase of `update`: a truthy input is resolved
     * and, when that succeeds, linked.  What any reference object of the
     * graph resolves to is left as it was; the input's reference object, if
     * any, now holds its settled pin.
     */
    method LinkInput(node: Node, entry: InputPin, ghost table: map<PinRef, Option<ResolvedPin>>,
                     ghost after: map<PinRef, string>, ghost done: set<PinRef>)
      requires Agrees(nodes, table)
      requires PinsSettle(nodes, after, done)
      requires RefOf(entry.input) <= AllRefs(nodes)
      modifies node, RefOf(entry.input), this`calls
      ensures Agrees(nodes, table)
      ensures PinsSettle(nodes, after, done + RefOf(entry.input))
      ensures node.links == if Truthy(entry.input) && ResolveWith(nodes, entry.input, table).Some?
                            then old(node.links)[entry.name := ResolveWith(nodes, entry.input, table).value]
                            else old(node.links)
      ensures calls == old(calls) + if Truthy(entry.input) && ResolveWith(nodes, entry.input, table).Some?
                                    then [LinkCall(node, entry.name, ResolveWith(nodes, entry.input, table).value)]
                                    else []
    {
      if Truthy(entry.input) {
        var pin := FindListedPin(entry.input, table, after, done);
        if pin.Some? {
          node.Link(entry.name, pin.value.node, pin.value.pin);
          calls := calls + [LinkCall(node, entry.name, pin.value)];
        }
      }
    }

    /**
     * `findPin` on an input whose reference object, if any, belongs to the
     * graph: the tables of resolutions and settled pins stay true, and the
     * input's reference object joins the settled ones.
     */
    method FindListedPin(input: Input, ghost table: map<PinRef, Option<ResolvedPin>>,
                         ghost after: map<PinRef, string>, ghost done: set<PinRef>) returns (r: Option<ResolvedPin>)
      requires !input.Unwired?
      requires Agrees(nodes, table)
      requires PinsSettle(nodes, after, done)
      requires RefOf(input) <= AllRefs(nodes)
      modifies RefOf(input)
      ensures r == ResolveWith(nodes, input, table)
      ensures Agrees(nodes, table)
      ensures PinsSettle(nodes, after, done + RefOf(input))
    {
      r := FindPin(input);
      forall q | q in AllRefs(nodes)
        ensures RefResolution(nodes, q) == table[q]
        ensures PinAfter(nodes, q) == after[q] && (q in done + RefOf(input) ==> q.pin == after[q])
      {
        if q !in RefOf(input) {
          assert q.pin == old(q.pin);
        }
      }
    }

    /**
     * The inner loop of the second phase of `update`: the inputs of one node,
     * in order.  The node gains the links its inputs resolve to; what any
     * reference object of the graph resolves to is left as it was, and
     * those of the node's inputs now hold their settled pins.
     */
    method LinkNode(node: Node, ghost table: map<PinRef, Option<ResolvedPin>>,
                    ghost after: map<PinRef, string>, ghost done: set<PinRef>)
      requires node in nodes
      requires Agrees(nodes, table)
      requires PinsSettle(nodes, after, done)
      modifies node, RefsIn(node.inputs), this`calls
      ensures Agrees(nodes, table)
      ensures PinsSettle(nodes, after, done + RefsIn(node.inputs))
      ensures node.links == old(node.links) + LinksWith(nodes, node, table)
      ensures forall n :: n in nodes && n != node ==> n.links == old(n.links)
      ensures calls == old(calls) + CallsWith(nodes, node, table)
    {
      InputsOfNode(nodes, node);
      RefsInEnds(node.inputs);
      for j := 0 to |node.inputs|
        invariant InputsLinked(node, j, table, after, done, old(node.links), old(calls))
      {
        LinkEntry(node, j, table, after, done, old(node.links), old(calls));
      }
      WholeSlice(ResolutionsWith(nodes, node.inputs, table));
    }

    /**
     * The state of the inner loop of `update` after the first j inputs of a
     * node: reference resolutions kept, the reference objects of those
     * inputs settled besides those in `done`, and the links and calls of
     * those inputs added to `base` and `start`.
     */
    ghost predicate InputsLinked(node: Node, j: nat, table: map<PinRef, Option<ResolvedPin>>,
                                 after: map<PinRef, string>, done: set<PinRef>,
                                 base: map<string, ResolvedPin>, start: seq<NodeCall>)
      reads this, node, AllRefs(nodes)
    {
      j <= |node.inputs| &&
      Agrees(nodes, table) &&
      PinsSettle(nodes, after, done + RefsIn(node.inputs[..j])) &&
      var res := ResolutionsWith(nodes, node.inputs, table);
      node.links == base + LinksOver(node.inputs[..j], res[..j]) &&
      calls == start + CallsOver(node, node.inputs[..j], res[..j])
    }

    /** One iteration of the inner loop of `update`: input j of the node. */
    method LinkEntry(node: Node, j: nat, ghost table: map<PinRef, Option<ResolvedPin>>,
                     ghost after: map<PinRef, string>, ghost done: set<PinRef>,
                     ghost base: map<string, ResolvedPin>, ghost start: seq<NodeCall>)
      requires node in nodes && j < |node.inputs|
      requires InputsLinked(node, j, table, after, done, base, start)
      modifies node, RefsIn(node.inputs), this`calls
      ensures InputsLinked(node, j + 1, table, after, done, base, start)
    {
      InputsOfNode(nodes, node);
      ghost var res := ResolutionsWith(nodes, node.inputs, table);
      var entry := node.inputs[j];
      RefOfIn(node.inputs, j);
      RefsInStep(node.inputs, j, done);
      LinksOverStep(node.inputs, res, j);
      CallsOverStep(node, node.inputs, res, j);
      ghost var linked := LinksOver(node.inputs[..j], res[..j]);
      ConcatAssoc(start, CallsOver(node, node.inputs[..j], res[..j]),
                  if Truthy(entry.input) && res[j].Some? then [LinkCall(node, entry.name, res[j].value)] else []);
      LinkInput(node, entry, table, after, done + RefsIn(node.inputs[..j]));
      if Truthy(entry.input) && res[j].Some? {
        MapUnionUpdate(base, linked, entry.name, res[j].value);
      }
    }

    /**
     * The first phase of `update`: `clear` on every listed node, in list
     * order.  Reference objects are not touched, so tables that agree with
     * them still do.
     */
    method ClearNodes(ghost table: map<PinRef, Option<ResolvedPin>>, ghost after: map<PinRef, string>)
      requires Agrees(nodes, table) && PinsSettle(nodes, after, {})
      modifies nodes, this`calls
      ensures forall n :: n in nodes ==> n.links == map[]
      ensures calls == old(calls) + ClearCalls(nodes)
      ensures unchanged(AllRefs(nodes))
      ensures Agrees(nodes, table) && PinsSettle(nodes, after, {})
    {
      for i := 0 to |nodes|
        invariant forall k :: 0 <= k < i ==> nodes[k].links == map[]
        invariant calls == old(calls) + ClearCalls(nodes[..i])
      {
        nodes[i].Clear();
        calls := calls + [ClearCall(nodes[i])];
        assert nodes[..i + 1][..i] == nodes[..i];
      }
      assert nodes[..|nodes|] == nodes;
    }

    /**
     * The second phase of `update`: the inputs of every listed node, in list
     * order.  Starting from cleared nodes, each node ends with the links its
     * inputs resolve to; what any reference object resolves to is left as
     * it was, and every reference object holds its settled pin.
     */
    method LinkNodes(ghost table: map<PinRef, Option<ResolvedPin>>, ghost after: map<PinRef, string>)
      requires Agrees(nodes, table)
      requires PinsSettle(nodes, after, {})
      requires forall n :: n in nodes ==> n.links == map[]
      modifies nodes, AllRefs(nodes), this`calls
      ensures Agrees(nodes, table)
      ensures PinsSettle(nodes, after, AllRefs(nodes))
      ensures forall n :: n in nodes ==> n.links == LinksWith(nodes, n, table)
      ensures calls == old(calls) + LinkCallsWith(nodes, |nodes|, table)
    {
      AllRefsEnds(nodes);
      for i := 0 to |nodes|
        invariant LinkedUpTo(i, table, after, old(calls))
      {
        LinkNext(i, table, after, old(calls));
      }
      WholePrefix(nodes);
    }

    /**
     * The state of the second phase of `update` after i nodes: reference
     * resolutions kept, the reference objects of the first i nodes settled,
     * the first i nodes linked and the others clear, and the calls for the
     * first i nodes logged after `start`.
     */
    ghost predicate LinkedUpTo(i: nat, table: map<PinRef, Option<ResolvedPin>>, after: map<PinRef, string>,
                               start: seq<NodeCall>)
      reads this, nodes, AllRefs(nodes)
    {
      i <= |nodes| &&
      Agrees(nodes, table) &&
      PinsSettle(nodes, after, AllRefs(nodes[..i])) &&
      (forall n :: n in nodes ==> n.links == if n in nodes[..i] then LinksWith(nodes, n, table) else map[]) &&
      calls == start + LinkCallsWith(nodes, i, table)
    }

    /** One iteration of the second phase of `update`: node i gets its links. */
    method LinkNext(i: nat, ghost table: map<PinRef, Option<ResolvedPin>>, ghost after: map<PinRef, string>,
                    ghost start: seq<NodeCall>)
      requires i < |nodes|
      requires LinkedUpTo(i, table, after, start)
      modifies nodes, AllRefs(nodes), this`calls
      ensures LinkedUpTo(i + 1, table, after, start)
    {
      var node := nodes[i];
      ghost var base := node.links;
      ghost var before := calls;
      InputsOfNode(nodes, node);
      AllRefsStep(nodes, i);
      LinkNode(node, table, after, AllRefs(nodes[..i]));
      MapUnionAbsorbs(base, LinksWith(nodes, node, table));
      LinkCallsStep(nodes, i, table, start, before);
      PrefixExtends(nodes, i);
    }

    /**
     * Drops every node's links, then links each truthy input that resolves.
     * Afterwards each listed node holds exactly the links its inputs resolve
     * to, a value that does not depend on any earlier links; every
     * reference object without a pin holds its producer's first output key
     * if the producer exists; every `clear` call comes before every `link`
     * call; the dirty flag is left alone.
     */
    method Update()
      modifies nodes, AllRefs(nodes), this`calls
      ensures forall n :: n in nodes ==> n.links == old(LinksFrom(nodes, n.inputs))
      ensures forall n :: n in nodes ==> n.links == LinksFrom(nodes, n.inputs)
      ensures forall r :: r in AllRefs(nodes) ==> r.pin == old(PinAfter(nodes, r))
      ensures calls == old(calls) + ClearCalls(nodes) + old(LinkCalls(nodes))
      ensures nodes == old(nodes) && dirty == old(dirty)
    {
      ghost var table := RefTable(nodes, AllRefs(nodes));
      ghost var after := PinTable(nodes, AllRefs(nodes));
      PinsSettleInitially(nodes);
      assert LinkCalls(nodes) == LinkCallsWith(nodes, |nodes|, table);
      forall n | n in nodes
        ensures LinksFrom(nodes, n.inputs) == LinksWith(nodes, n, table)
      {
        TableAgrees(nodes, n, table);
      }
      ClearNodes(table, after);
      LinkNodes(table, after);
      forall n | n in nodes
        ensures n.links == LinksFrom(nodes, n.inputs)
      {
        TableAgrees(nodes, n, table);
      }
    }
  }

  /** Overwriting one key of a union overwrites it in the right-hand map. */
  lemma MapUnionUpdate(base: map<string, ResolvedPin>, m: map<string, ResolvedPin>, k: string, v: ResolvedPin)
    ensures (base + m)[k := v] == base + m[k := v]
  {
  }

  /** A union with the empty map, or with the map itself, gives the map back. */
  lemma MapUnionAbsorbs(base: map<string, ResolvedPin>, m: map<string, ResolvedPin>)
    requires base == map[] || base == m
    ensures base + m == m
  {
  }

  /** The reference objects of a listed node belong to the list's. */
  lemma InputsOfNode(nodes: seq<Node>, n: Node)
    requires n in nodes
    ensures RefsIn(n.inputs) <= AllRefs(nodes)
  {
  }

  /** A table that agrees with the state gives the node's inputs the resolutions of the state. */
  lemma TableAgrees(nodes: seq<Node>, n: Node, table: map<PinRef, Option<ResolvedPin>>)
    requires n in nodes
    requires Agrees(nodes, table)
    ensures RefsIn(n.inputs) <= table.Keys
    ensures Resolutions(nodes, n.inputs) == ResolutionsWith(nodes, n.inputs, table)
  {
    InputsOfNode(nodes, n);
  }

  /** The reference object of one input is among those of the list. */
  lemma RefOfIn(ins: seq<InputPin>, j: int)
    requires 0 <= j < |ins|
    ensures RefOf(ins[j].input) <= RefsIn(ins)
  {
    if ins[j].input.Explicit? {
      assert ins[j].input.ref in RefsIn(ins);
    }
  }

  /** Processing one more input adds at most the link of that input's name. */
  lemma LinksOverStep(ins: seq<InputPin>, res: seq<Option<ResolvedPin>>, j: int)
    requires |res| == |ins| && 0 <= j < |ins|
    ensures LinksOver(ins[..j + 1], res[..j + 1]) ==
            if Truthy(ins[j].input) && res[j].Some?
            then LinksOver(ins[..j], res[..j])[ins[j].name := res[j].value]
            else LinksOver(ins[..j], res[..j])
  {
    assert ins[..j + 1][..j] == ins[..j];
    assert res[..j + 1][..j] == res[..j];
  }

  /** Processing one more input adds at most the `link` call of that input. */
  lemma CallsOverStep(n: Node, ins: seq<InputPin>, res: seq<Option<ResolvedPin>>, j: int)
    requires |res| == |ins| && 0 <= j < |ins|
    ensures CallsOver(n, ins[..j + 1], res[..j + 1]) ==
            CallsOver(n, ins[..j], res[..j]) +
            if Truthy(ins[j].input) && res[j].Some? then [LinkCall(n, ins[j].name, res[j].value)] else []
  {
    assert ins[..j + 1][..j] == ins[..j];
    assert res[..j + 1][..j] == res[..j];
  }

  /** One more entry of a list's prefix: the prefix so far and that entry. */
  lemma PrefixExtends(s: seq<Node>, i: int)
    requires 0 <= i < |s|
    ensures forall n :: n in s[..i + 1] <==> n in s[..i] || n == s[i]
  {
    assert s[..i + 1] == s[..i] + [s[i]];
  }

  /** Before any visit, the pins every reference object settles on are recorded, and none is settled yet. */
  lemma PinsSettleInitially(nodes: seq<Node>)
    ensures PinsSettle(nodes, PinTable(nodes, AllRefs(nodes)), {})
  {
  }

  /** One more input of a list's prefix adds that input's reference object. */
  lemma RefsInStep(ins: seq<InputPin>, j: int, done: set<PinRef>)
    requires 0 <= j < |ins|
    ensures done + RefsIn(ins[..j]) + RefOf(ins[j].input) == done + RefsIn(ins[..j + 1])
  {
    assert forall k :: 0 <= k < j ==> ins[..j + 1][k] == ins[..j][k];
    assert ins[..j + 1][j] == ins[j];
  }

  /** The empty prefix of a list of inputs has no reference objects, the whole one all of them. */
  lemma RefsInEnds(ins: seq<InputPin>)
    ensures RefsIn(ins[..0]) == {}
    ensures ins[..|ins|] == ins
  {
    WholeSlice(ins);
  }

  /** One more node of a list's prefix adds the reference objects of that node's inputs. */
  lemma AllRefsStep(nodes: seq<Node>, i: int)
    requires 0 <= i < |nodes|
    ensures AllRefs(nodes[..i + 1]) == AllRefs(nodes[..i]) + RefsIn(nodes[i].inputs)
  {
    assert nodes[..i + 1] == nodes[..i] + [nodes[i]];
  }

  /** The empty prefix of a list of nodes has no reference objects, the whole one all of them. */
  lemma AllRefsEnds(nodes: seq<Node>)
    ensures AllRefs(nodes[..0]) == {}
    ensures AllRefs(nodes[..|nodes|]) == AllRefs(nodes)
  {
    assert nodes[..|nodes|] == nodes;
  }

  /** The prefix of a list up to its length has the same entries as the list. */
  lemma WholePrefix(s: seq<Node>)
    ensures forall n :: n in s[..|s|] <==> n in s
  {
    assert s[..|s|] == s;
  }

  /** One more node's `link` calls extend the log of the second phase by that node's calls. */
  lemma LinkCallsStep(nodes: seq<Node>, i: int, table: map<PinRef, Option<ResolvedPin>>, start: seq<NodeCall>, log: seq<NodeCall>)
    requires 0 <= i < |nodes|
    requires log == start + LinkCallsWith(nodes, i, table)
    ensures log + CallsWith(nodes, nodes[i], table) == start + LinkCallsWith(nodes, i + 1, table)
  {
    ConcatAssoc(start, LinkCallsWith(nodes, i, table), CallsWith(nodes, nodes[i], table));
  }

  // ---------------------------------------------------------------------
  // Lookup by name

  /**
   * `getNodeByName` finds the first node carrying the name: nothing when no
   * node carries it, and otherwise the node at the first such position.
   */
  lemma {:induction false} FirstNamedIsFirstMatch(nodes: seq<Node>, name: string)
    ensures FirstNamed(nodes, name) == null <==> forall k :: 0 <= k < |nodes| ==> nodes[k].name != name
    ensures forall k :: 0 <= k < |nodes| && nodes[k].name == name && (forall j :: 0 <= j < k ==> nodes[j].name != name) ==>
              FirstNamed(nodes, name) == nodes[k]
  {
    if nodes != [] {
      FirstNamedIsFirstMatch(nodes[1..], name);
      forall k | 0 <= k < |nodes| && nodes[k].name == name && (forall j :: 0 <= j < k ==> nodes[j].name != name)
        ensures FirstNamed(nodes, name) == nodes[k]
      {
        if k > 0 {
          assert nodes[0].name != name;
          assert forall j :: 0 <= j < k - 1 ==> nodes[1..][j].name != name by {
            forall j | 0 <= j < k - 1 ensures nodes[1..][j].name != name {
              assert nodes[1..][j] == nodes[j + 1];
            }
          }
          assert nodes[1..][k - 1] == nodes[k];
        }
      }
      if forall k :: 0 <= k < |nodes[1..]| ==> nodes[1..][k].name != name {
        if nodes[0].name != name {
          forall k | 0 <= k < |nodes| ensures nodes[k].name != name {
            if k > 0 {
              assert nodes[k] == nodes[1..][k - 1];
            }
          }
        }
      } else {
        var k :| 0 <= k < |nodes[1..]| && nodes[1..][k].name == name;
        assert nodes[k + 1].name == name;
      }
    }
  }

  /**
   * The name lookup of `findPin` finds the last node carrying the name:
   * nothing when no node carries it, and otherwise the node at the last
   * such position.
   */
  lemma {:induction false} LastNamedIsLastMatch(nodes: seq<Node>, name: string)
    ensures LastNamed(nodes, name) == null <==> forall k :: 0 <= k < |nodes| ==> nodes[k].name != name
    ensures forall k :: 0 <= k < |nodes| && nodes[k].name == name && (forall j :: k < j < |nodes| ==> nodes[j].name != name) ==>
              LastNamed(nodes, name) == nodes[k]
  {
    if nodes != [] {
      var init := nodes[..|nodes| - 1];
      LastNamedIsLastMatch(init, name);
      forall k | 0 <= k < |nodes| && nodes[k].name == name && (forall j :: k < j < |nodes| ==> nodes[j].name != name)
        ensures LastNamed(nodes, name) == nodes[k]
      {
        if k < |nodes| - 1 {
          assert nodes[|nodes| - 1].name != name;
          assert forall j :: k < j < |init| ==> init[j].name != name;
          assert init[k] == nodes[k];
        }
      }
      if forall k :: 0 <= k < |init| ==> init[k].name != name {
        if nodes[|nodes| - 1].name != name {
          forall k | 0 <= k < |nodes| ensures nodes[k].name != name {
            if k < |nodes| - 1 {
              assert nodes[k] == init[k];
            }
          }
        }
      } else {
        var k :| 0 <= k < |init| && init[k].name == name;
        assert nodes[k].name == name;
      }
    }
  }

  /**
   * With two distinct nodes sharing a name, `getNodeByName` and the name
   * lookup of `findPin` disagree: the first returns the earlier node, the
   * second the later one.
   */
  lemma LookupsDisagreeOnDuplicates(nodes: seq<Node>, name: string, i: int, j: int)
    requires 0 <= i < j < |nodes|
    requires nodes[i].name == name && nodes[j].name == name && nodes[i] != nodes[j]
    requires forall k :: 0 <= k < |nodes| && k != i && k != j ==> nodes[k].name != name
    ensures FirstNamed(nodes, name) == nodes[i]
    ensures LastNamed(nodes, name) == nodes[j]
  {
    FirstNamedIsFirstMatch(nodes, name);
    LastNamedIsLastMatch(nodes, name);
  }

  // ---------------------------------------------------------------------
  // Pin resolution

  /** `outputs[pin]` is truthy exactly when the first output with that key is enabled. */
  lemma {:induction false} OutputEnabledIsFirstMatch(outputs: seq<OutputPin>, pin: string)
    ensures OutputEnabled(outputs, pin) <==>
            exists k :: 0 <= k < |outputs| && outputs[k].key == pin && outputs[k].enabled &&
                        forall j :: 0 <= j < k ==> outputs[j].key != pin
  {
    if outputs != [] && outputs[0].key != pin {
      OutputEnabledIsFirstMatch(outputs[1..], pin);
      if OutputEnabled(outputs, pin) {
        var k :| 0 <= k < |outputs[1..]| && outputs[1..][k].key == pin && outputs[1..][k].enabled &&
                 forall j :: 0 <= j < k ==> outputs[1..][j].key != pin;
        assert outputs[k + 1] == outputs[1..][k];
        forall j | 0 <= j < k + 1 ensures outputs[j].key != pin {
          if j > 0 {
            assert outputs[j] == outputs[1..][j - 1];
          }
        }
      }
      if exists k :: 0 <= k < |outputs| && outputs[k].key == pin && outputs[k].enabled &&
                     forall j :: 0 <= j < k ==> outputs[j].key != pin {
        var k :| 0 <= k < |outputs| && outputs[k].key == pin && outputs[k].enabled &&
                 forall j :: 0 <= j < k ==> outputs[j].key != pin;
        assert k > 0;
        assert outputs[1..][k - 1] == outputs[k];
        forall j | 0 <= j < k - 1 ensures outputs[1..][j].key != pin {
          assert outputs[1..][j] == outputs[j + 1];
        }
      }
    }
  }

  /**
   * A successful resolution names the producer and one of its outputs whose
   * value is truthy; a missing pin resolves exactly like the producer's
   * first output key, so writing that key back changes nothing.
   */
  lemma ResolvedPinIsEnabledOutput(producer: Node, requested: string)
    ensures ResolveAt(producer, requested).Some? ==>
            ResolveAt(producer, requested).value.node == producer &&
            exists k :: 0 <= k < |producer.outputs| &&
                        producer.outputs[k].key == ResolveAt(producer, requested).value.pin &&
                        producer.outputs[k].enabled
    ensures requested == "" ==> ResolveAt(producer, requested) == ResolveAt(producer, FirstKey(producer.outputs))
    ensures ResolveAt(producer, ChosenPin(producer, requested)) == ResolveAt(producer, requested)
  {
    OutputEnabledIsFirstMatch(producer.outputs, ChosenPin(producer, requested));
  }

  // ---------------------------------------------------------------------
  // The links `update` leaves behind

  /** The input names of a node are distinct (they are the keys of an object). */
  predicate DistinctNames(ins: seq<InputPin>)
  {
    forall i, j :: 0 <= i < j < |ins| ==> ins[i].name != ins[j].name
  }

  /**
   * With distinct input names, processing the inputs in order links input k
   * exactly when it is truthy and resolves, to what it resolves to, and
   * makes no other link.
   */
  lemma {:induction false} LinksOverExact(ins: seq<InputPin>, res: seq<Option<ResolvedPin>>)
    requires |res| == |ins| && DistinctNames(ins)
    ensures forall k :: 0 <= k < |ins| ==>
              (ins[k].name in LinksOver(ins, res) <==> Truthy(ins[k].input) && res[k].Some?)
    ensures forall k :: 0 <= k < |ins| && ins[k].name in LinksOver(ins, res) ==>
              LinksOver(ins, res)[ins[k].name] == res[k].value
    ensures forall name :: name in LinksOver(ins, res) ==> exists k :: 0 <= k < |ins| && ins[k].name == name
  {
    if ins != [] {
      var n := |ins| - 1;
      var init, rinit := ins[..n], res[..n];
      assert DistinctNames(init) by {
        forall i, j | 0 <= i < j < |init| ensures init[i].name != init[j].name {
          assert init[i] == ins[i] && init[j] == ins[j];
        }
      }
      LinksOverExact(init, rinit);
      var before := LinksOver(init, rinit);
      assert ins[n].name !in before by {
        forall k | 0 <= k < |init| ensures init[k].name != ins[n].name {
          assert init[k] == ins[k];
        }
      }
      var links := LinksOver(ins, res);
      assert links == if Truthy(ins[n].input) && res[n].Some? then before[ins[n].name := res[n].value] else before;
      forall k | 0 <= k < |ins|
        ensures ins[k].name in links <==> Truthy(ins[k].input) && res[k].Some?
        ensures ins[k].name in links ==> links[ins[k].name] == res[k].value
      {
        if k < n {
          assert init[k] == ins[k] && rinit[k] == res[k];
          assert ins[k].name != ins[n].name;
        }
      }
      forall name | name in links
        ensures exists k :: 0 <= k < |ins| && ins[k].name == name
      {
        if name != ins[n].name {
          var k :| 0 <= k < |init| && init[k].name == name;
          assert ins[k].name == name;
        }
      }
    }
  }

  /**
   * After `update` (whose links are `LinksFrom` of the state before it), a
   * node with distinct input names has a link for input k exactly when the
   * input is truthy and `findPin` resolves it, and that link is the
   * resolved (node, pin); it has no link for any other name.
   */
  lemma UpdateLinksExact(nodes: seq<Node>, ins: seq<InputPin>)
    requires DistinctNames(ins)
    ensures forall k :: 0 <= k < |ins| ==>
              (ins[k].name in LinksFrom(nodes, ins) <==> Truthy(ins[k].input) && Resolve(nodes, ins[k].input).Some?)
    ensures forall k :: 0 <= k < |ins| && ins[k].name in LinksFrom(nodes, ins) ==>
              LinksFrom(nodes, ins)[ins[k].name] == Resolve(nodes, ins[k].input).value
    ensures forall name :: name in LinksFrom(nodes, ins) ==> exists k :: 0 <= k < |ins| && ins[k].name == name
  {
    LinksOverExact(ins, Resolutions(nodes, ins));
  }

  // ---------------------------------------------------------------------
  // The calls `update` makes

  /** The first phase clears each listed node once, in list order. */
  lemma {:induction false} ClearCallsInOrder(ns: seq<Node>)
    ensures |ClearCalls(ns)| == |ns|
    ensures forall k :: 0 <= k < |ns| ==> ClearCalls(ns)[k] == ClearCall(ns[k])
  {
    if ns != [] {
      ClearCallsInOrder(ns[..|ns| - 1]);
    }
  }

  /** Processing inputs makes only `link` calls, all on the node processed. */
  lemma {:induction false} CallsOverAreLinks(n: Node, ins: seq<InputPin>, res: seq<Option<ResolvedPin>>)
    requires |res| == |ins|
    ensures forall c :: c in CallsOver(n, ins, res) ==> c.LinkCall? && c.target == n
  {
    if ins != [] {
      CallsOverAreLinks(n, ins[..|ins| - 1], res[..|res| - 1]);
    }
  }

  /** The second phase makes only `link` calls, each on a listed node. */
  lemma {:induction false} LinkCallsAreLinks(nodes: seq<Node>, i: nat, table: map<PinRef, Option<ResolvedPin>>)
    requires i <= |nodes|
    ensures forall c :: c in LinkCallsWith(nodes, i, table) ==> c.LinkCall? && c.target in nodes
  {
    if i > 0 {
      var last := nodes[i - 1];
      var before, mine := LinkCallsWith(nodes, i - 1, table), CallsWith(nodes, last, table);
      LinkCallsAreLinks(nodes, i - 1, table);
      CallsOverAreLinks(last, last.inputs, ResolutionsWith(nodes, last.inputs, table));
      forall c: NodeCall | c in before + mine
        ensures c.LinkCall? && c.target in nodes
      {
        if c !in before {
          assert c in mine;
        }
      }
    }
  }

  /**
   * In the calls `update` makes, every `clear` comes before every `link`:
   * the first |nodes| calls clear the listed nodes in order, and every later
   * call is a `link` on a listed node.
   */
  lemma ClearsBeforeLinks(nodes: seq<Node>, table: map<PinRef, Option<ResolvedPin>>)
    ensures var log := ClearCalls(nodes) + LinkCallsWith(nodes, |nodes|, table);
            |nodes| <= |log| &&
            (forall k :: 0 <= k < |nodes| ==> log[k] == ClearCall(nodes[k])) &&
            (forall k :: |nodes| <= k < |log| ==> log[k].LinkCall? && log[k].target in nodes)
  {
    var clears, links := ClearCalls(nodes), LinkCallsWith(nodes, |nodes|, table);
    ClearCallsInOrder(nodes);
    LinkCallsAreLinks(nodes, |nodes|, table);
    var log := clears + links;
    forall k | |nodes| <= k < |log|
      ensures log[k].LinkCall? && log[k].target in nodes
    {
      assert log[k] == links[k - |nodes|];
      assert links[k - |nodes|] in links;
    }
  }

  // ---------------------------------------------------------------------
  // Removing a node

  /**
   * For a listed node, `splice(indexOf(node), 1)` removes exactly its first
   * occurrence: the entries before it and after it keep their order, and
   * one copy of the node is gone.
   */
  lemma RemovePresentDropsFirstOccurrence(s: seq<Node>, x: Node)
    requires x in s
    ensures var i, r := IndexOf(s, x), WithoutFirst(s, x);
            SpliceOne(s, i) == r && |r| == |s| - 1 && r[..i] == s[..i] && r[i..] == s[i + 1..] &&
            multiset(r) == multiset(s) - multiset{x}
  {
    var i := IndexOf(s, x);
    assert WithoutFirst(s, x) == s[..i] + s[i + 1..];
    SpliceInRange(s, i);
    DropAt(s, i);
  }

  /** Within range, `splice(start, 1)` cuts out exactly the entry at `start`. */
  lemma SpliceInRange(s: seq<Node>, start: int)
    requires 0 <= start < |s|
    ensures SpliceOne(s, start) == s[..start] + s[start + 1..]
  {
  }

  /** Cutting one entry out of a list keeps the rest in order and removes one copy of it. */
  lemma DropAt<T>(s: seq<T>, i: int)
    requires 0 <= i < |s|
    ensures |s[..i] + s[i + 1..]| == |s| - 1
    ensures (s[..i] + s[i + 1..])[..i] == s[..i]
    ensures (s[..i] + s[i + 1..])[i..] == s[i + 1..]
    ensures multiset(s[..i] + s[i + 1..]) == multiset(s) - multiset{s[i]}
  {
    var r := s[..i] + s[i + 1..];
    assert s == s[..i] + ([s[i]] + s[i + 1..]);
    calc {
      multiset(s);
      multiset(s[..i]) + multiset([s[i]] + s[i + 1..]);
      multiset(s[..i]) + multiset{s[i]} + multiset(s[i + 1..]);
      multiset(r) + multiset{s[i]};
    }
  }

  /**
   * As written, removing a node that is not listed removes the last node
   * instead: `indexOf` gives -1 and `splice(-1, 1)` drops the final entry.
   */
  lemma RemoveAbsentDropsLast(s: seq<Node>, x: Node)
    requires x !in s && s != []
    ensures SpliceOne(s, IndexOf(s, x)) == s[..|s| - 1]
    ensures |SpliceOne(s, IndexOf(s, x))| == |s| - 1
  {
  }

  /** Removal as intended leaves a list without the node unchanged. */
  lemma RemoveCheckedAbsentKeepsList(s: seq<Node>, x: Node)
    requires x !in s
    ensures WithoutFirst(s, x) == s
  {
  }

  /**
   * After removing a node listed once, whose name no other node carries, a
   * reference by that name finds no producer, while a reference holding the
   * node itself still designates it: the removal does not reach handles.
   */
  lemma RemovedNodeStillReachableByHandle(nodes: seq<Node>, x: Node)
    requires x in nodes && multiset(nodes)[x] == 1
    requires forall k :: 0 <= k < |nodes| && nodes[k] != x ==> nodes[k].name != x.name
    ensures x !in WithoutFirst(nodes, x)
    ensures ProducerOf(WithoutFirst(nodes, x), ByName(x.name)) == null
    ensures ProducerOf(WithoutFirst(nodes, x), ByHandle(x)) == x
  {
    var r := WithoutFirst(nodes, x);
    RemovePresentDropsFirstOccurrence(nodes, x);
    assert multiset(r)[x] == 0;
    forall k | 0 <= k < |r|
      ensures r[k].name != x.name
    {
      assert r[k] in multiset(r);
      assert r[k] in nodes;
      var i :| 0 <= i < |nodes| && nodes[i] == r[k];
    }
    LastNamedIsLastMatch(r, x.name);
  }
}

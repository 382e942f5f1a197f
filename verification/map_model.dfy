/**
  The map-model builder: from the parsed sections of a map file to a graph
  of triggers and variables plus a list of warnings.

  The phases, in the order the builder runs them:
  1. parent links from `[Triggers]`, and an empty tag group per trigger;
  2. each `[Tags]` entry joins the group of its trigger's representative;
  3. each trigger with a non-empty group becomes a node, after its events and
     actions have drawn their edges and registered the global variables they
     touch;
  4. each `[VariableNames]` entry becomes a local-variable node;
  5. each edge makes its two ends neighbours, when both are nodes.

  Some inputs make the source throw outside its `try` block; those end in a
  `Crash`.
 */
module MapModel {
  import opened Wrappers
  import opened JsText
  import opened OrderedMap
  import opened Ini
  import opened Streams
  import UF = UnionFind

  // ------------------------------------------------------------ data model

  /** A node of the graph; `neighbours` is filled in by the last phase. */
  datatype Node =
    | TriggerNode(id: string, name: Val, house: Val, easy: Option<int>, normal: Option<int>,
                  hard: Option<int>, disabled: Option<int>, tags: seq<string>, repeat: Option<int>,
                  link: string, events: Option<seq<Event>>, actions: Option<seq<Action>>,
                  neighbours: seq<string>)
    | LocalVar(id: string, name: Val, initValue: Val, neighbours: seq<string>)
    | GlobalVar(id: string, caption: string, neighbours: seq<string>)

  /** A trigger is drawn as disabled when its `disabled` field parses to a non-zero number. */
  predicate DrawnDisabled(n: Node)
  {
    n.TriggerNode? && n.disabled.Some? && n.disabled.value != 0
  }

  datatype Warning =
    | TagWithoutTrigger(tag: string)
    | TriggerWithoutTags(trigger: string)
    | EventsOrActionsFailed(trigger: string)
    | DuplicateId(id: string)
    | NoTriggers

  /** The text the source shows for each warning. */
  function Message(w: Warning): string
  {
    match w
    case TagWithoutTrigger(t) => "Tag " + t + " refers to non-existent trigger!"
    case TriggerWithoutTags(t) => "Trigger " + t + " doesn't have any tags!"
    case EventsOrActionsFailed(t) => "Trigger " + t + " has error in events or actions"
    case DuplicateId(t) => "ID " + t + " duplicated!"
    case NoTriggers => "There are no triggers in this map!"
  }

  /** Why the source throws out of the whole build. */
  datatype Crash =
    | EndlessRecursion(from: Val)   // `findRep` on a parent chain with no fixed point
    | NoGroup(trigger: string)      // `triggerRef[rep].length` with no slot for `rep`
    | NoTagValue(tag: string)       // `config.Tags[tag].split` with no such value
    | UndefinedLink(trigger: string) // `link.trim()` on a trigger value with no second field

  /** What the builder returns: the nodes in insertion order, the edges and the warnings. */
  datatype MapModel = MapModel(nodes: seq<Node>, edges: seq<Edge>, warnings: seq<Warning>)

  /** The builder's state while the triggers are processed. */
  datatype Builder = Builder(nodes: OMap<Node>, uniqueIds: set<string>, edges: seq<Edge>,
                             warnings: seq<Warning>, parents: UF.Parents)

  /** Every node sits under its own id with no neighbours yet. */
  predicate NodesFresh(nodes: OMap<Node>)
  {
    && nodes.Valid()
    && forall k | k in nodes.vals :: nodes.vals[k].id == k && nodes.vals[k].neighbours == []
  }

  /** While triggers are processed the taken ids are exactly the node ids; the final warning is not yet issued. */
  predicate Inv(b: Builder)
  {
    && NodesFresh(b.nodes)
    && b.uniqueIds == b.nodes.vals.Keys
    && NoTriggers !in b.warnings
  }

  /** `obj[k]` on a section: `undefined` for a missing key. */
  function Lookup(sec: OMap<string>, k: string): Val
  {
    if k in sec.vals then Str(sec.vals[k]) else Undef
  }

  // ------------------------------------------------------------ addGlobalVariable

  function GlobalId(id: Val): string
  {
    "G" + ToStr(id)
  }

  /**
    `addGlobalVariable(id)`: a node `G<id>` labelled "Global Variable <id>"
    is created and its id taken, unless that id is taken already.
   */
  function AddGlobal(b: Builder, id: Val): (r: Builder)
    requires Inv(b)
    ensures Inv(r)
    ensures GlobalId(id) in r.uniqueIds && GlobalId(id) in r.nodes.vals
    ensures r.uniqueIds == b.uniqueIds + {GlobalId(id)}
    ensures forall k | k != GlobalId(id) :: OrderedMap.Get(r.nodes, k) == OrderedMap.Get(b.nodes, k)
    ensures GlobalId(id) in b.uniqueIds ==> r.nodes == b.nodes
    ensures GlobalId(id) !in b.uniqueIds ==> r.nodes.vals[GlobalId(id)].GlobalVar?
    ensures r.edges == b.edges && r.warnings == b.warnings && r.parents == b.parents
  {
    var gid := GlobalId(id);
    if gid in b.uniqueIds then b
    else b.(nodes := Put(b.nodes, gid, GlobalVar(gid, "Global Variable " + ToStr(id), [])),
            uniqueIds := b.uniqueIds + {gid})
  }

  /** Registering the same global twice is the same as registering it once. */
  lemma {:induction false} AddGlobalIdempotent(b: Builder, id: Val)
    requires Inv(b)
    ensures AddGlobal(AddGlobal(b, id), id) == AddGlobal(b, id)
  {
  }

  // ------------------------------------------------------------ stream effects

  /** One event's effect: register its global (opcodes 27/28), then draw its edge. */
  function ApplyEvent(b: Builder, e: Event, parent: string): (r: Builder)
    requires Inv(b)
    ensures Inv(r)
  {
    var b1 := match EventGlobal(e) case Some(g) => AddGlobal(b, g) case None => b;
    match EventEdge(e, parent)
    case Some(edge) => b1.(edges := b1.edges + [edge])
    case None => b1
  }

  function ApplyEvents(b: Builder, es: seq<Event>, parent: string): (r: Builder)
    requires Inv(b)
    ensures Inv(r)
    decreases |es|
  {
    if |es| == 0 then b else ApplyEvents(ApplyEvent(b, es[0], parent), es[1..], parent)
  }

  /** One action's effect: register its global (opcodes 28/29), then draw its edge. */
  function ApplyAction(b: Builder, a: Action, parent: string): (r: Builder)
    requires Inv(b)
    ensures Inv(r)
  {
    var b1 := match ActionGlobal(a) case Some(g) => AddGlobal(b, g) case None => b;
    match ActionEdge(a, parent)
    case Some(edge) => b1.(edges := b1.edges + [edge])
    case None => b1
  }

  function ApplyActions(b: Builder, acts: seq<Action>, parent: string): (r: Builder)
    requires Inv(b)
    ensures Inv(r)
    decreases |acts|
  {
    if |acts| == 0 then b else ApplyActions(ApplyAction(b, acts[0], parent), acts[1..], parent)
  }

  function EdgeList(o: Option<Edge>): seq<Edge>
  {
    match o case Some(e) => [e] case None => []
  }

  /** The edges a sequence of events draws, in order. */
  function EventEdges(es: seq<Event>, parent: string): seq<Edge>
    decreases |es|
  {
    if |es| == 0 then [] else EdgeList(EventEdge(es[0], parent)) + EventEdges(es[1..], parent)
  }

  function ActionEdges(acts: seq<Action>, parent: string): seq<Edge>
    decreases |acts|
  {
    if |acts| == 0 then [] else EdgeList(ActionEdge(acts[0], parent)) + ActionEdges(acts[1..], parent)
  }

  /** Existing nodes keep their values while a stream is applied. */
  ghost predicate Extends(b: Builder, r: Builder)
  {
    && (forall k | k in b.nodes.vals :: k in r.nodes.vals && r.nodes.vals[k] == b.nodes.vals[k])
    && b.uniqueIds <= r.uniqueIds
  }

  lemma {:induction false} ExtendsTrans(a: Builder, b: Builder, c: Builder)
    requires Extends(a, b) && Extends(b, c)
    ensures Extends(a, c)
  {
  }

  lemma {:induction false} ApplyEventStep(b: Builder, e: Event, parent: string)
    requires Inv(b)
    ensures Grown(b, ApplyEvent(b, e, parent), EdgeList(EventEdge(e, parent)))
    ensures EventGlobal(e).Some? ==> GlobalId(EventGlobal(e).value) in ApplyEvent(b, e, parent).nodes.vals
  {
  }

  lemma {:induction false} ApplyActionStep(b: Builder, a: Action, parent: string)
    requires Inv(b)
    ensures Grown(b, ApplyAction(b, a, parent), EdgeList(ActionEdge(a, parent)))
    ensures ActionGlobal(a).Some? ==> GlobalId(ActionGlobal(a).value) in ApplyAction(b, a, parent).nodes.vals
  {
  }

  /** `r` is `b` with the edges `added` appended and only new nodes beside the old ones. */
  ghost predicate Grown(b: Builder, r: Builder, added: seq<Edge>)
  {
    && r.edges == b.edges + added
    && r.warnings == b.warnings && r.parents == b.parents
    && Extends(b, r)
  }

  lemma {:induction false} GrownTrans(a: Builder, b: Builder, c: Builder, x: seq<Edge>, y: seq<Edge>)
    requires Grown(a, b, x) && Grown(b, c, y)
    ensures Grown(a, c, x + y)
  {
  }

  /**
    Applying events appends exactly their edges, leaves the warnings alone,
    keeps every existing node, and leaves a node `G<p0>` for every event with
    opcode 27 or 28.
   */
  lemma {:induction false} ApplyEventsEffect(b: Builder, es: seq<Event>, parent: string)
    requires Inv(b)
    ensures Grown(b, ApplyEvents(b, es, parent), EventEdges(es, parent))
    ensures forall i | 0 <= i < |es| && EventGlobal(es[i]).Some? ::
              GlobalId(EventGlobal(es[i]).value) in ApplyEvents(b, es, parent).nodes.vals
    decreases |es|
  {
    if |es| > 0 {
      var b1 := ApplyEvent(b, es[0], parent);
      var r := ApplyEvents(b1, es[1..], parent);
      assert ApplyEvents(b, es, parent) == r;
      ApplyEventStep(b, es[0], parent);
      ApplyEventsEffect(b1, es[1..], parent);
      GrownTrans(b, b1, r, EdgeList(EventEdge(es[0], parent)), EventEdges(es[1..], parent));
      forall i | 0 <= i < |es| && EventGlobal(es[i]).Some?
        ensures GlobalId(EventGlobal(es[i]).value) in r.nodes.vals
      {
        if i > 0 {
          assert es[i] == es[1..][i - 1];
        }
      }
    }
  }

  /** The action counterpart of `ApplyEventsEffect`, for opcodes 28 and 29. */
  lemma {:induction false} ApplyActionsEffect(b: Builder, acts: seq<Action>, parent: string)
    requires Inv(b)
    ensures Grown(b, ApplyActions(b, acts, parent), ActionEdges(acts, parent))
    ensures forall i | 0 <= i < |acts| && ActionGlobal(acts[i]).Some? ::
              GlobalId(ActionGlobal(acts[i]).value) in ApplyActions(b, acts, parent).nodes.vals
    decreases |acts|
  {
    if |acts| > 0 {
      var b1 := ApplyAction(b, acts[0], parent);
      var r := ApplyActions(b1, acts[1..], parent);
      assert ApplyActions(b, acts, parent) == r;
      ApplyActionStep(b, acts[0], parent);
      ApplyActionsEffect(b1, acts[1..], parent);
      GrownTrans(b, b1, r, EdgeList(ActionEdge(acts[0], parent)), ActionEdges(acts[1..], parent));
      forall i | 0 <= i < |acts| && ActionGlobal(acts[i]).Some?
        ensures GlobalId(ActionGlobal(acts[i]).value) in r.nodes.vals
      {
        if i > 0 {
          assert acts[i] == acts[1..][i - 1];
        }
      }
    }
  }

  // ------------------------------------------------------------ tag groups

  /** `disjointTrigger`, `triggerRef` and the warnings while tags are attached. */
  datatype Groups = Groups(parents: UF.Parents, refs: map<string, seq<string>>, warnings: seq<Warning>)

  /** The trigger a tag names: the third field of its value. */
  function TagTrigger(tags: OMap<string>, t: string): Val
    requires t in tags.vals
  {
    Field(Split(tags.vals[t], ','), 2)
  }

  /** A `[Tags]` entry as the tag loop sees it: its id and the trigger it names. */
  datatype TagRef = TagRef(tag: string, target: Val)

  /** The `[Tags]` entries in the order `ids`. */
  function TagRefs(tags: OMap<string>, ids: seq<string>): (ts: seq<TagRef>)
    requires forall i | 0 <= i < |ids| :: ids[i] in tags.vals
    ensures |ts| == |ids|
    ensures forall i | 0 <= i < |ids| :: ts[i] == TagRef(ids[i], TagTrigger(tags, ids[i]))
  {
    seq(|ids|, i requires 0 <= i < |ids| => TagRef(ids[i], TagTrigger(tags, ids[i])))
  }

  /** The property key of the representative of `v`, if `findRep(v)` returns. */
  function RepKey(p: UF.Parents, v: Val): Option<string>
  {
    match UF.Rep(p, v)
    case None => None
    case Some(r) => Some(UF.Key(r))
  }

  /**
    One iteration of the tag loop: the tag joins its trigger's group, or is
    reported when the representative has no group.
   */
  function AttachTag(g: Groups, t: TagRef): (r: Result<Groups, Crash>)
    ensures r.Failure? <==> RepKey(g.parents, t.target).None?
    ensures r.Failure? ==> r.error == EndlessRecursion(t.target)
    ensures r.Success? ==> forall w :: UF.Rep(r.value.parents, w) == UF.Rep(g.parents, w)
    ensures r.Success? ==>
              var k := RepKey(g.parents, t.target).value;
              if k in g.refs then r.value.refs == g.refs[k := g.refs[k] + [t.tag]] && r.value.warnings == g.warnings
              else r.value.refs == g.refs && r.value.warnings == g.warnings + [TagWithoutTrigger(t.tag)]
  {
    match UF.FindRep(g.parents, t.target)
    case None => Failure(EndlessRecursion(t.target))
    case Some(f) =>
      UF.CompressKeepsReps(g.parents, t.target);
      var k := UF.Key(f.rep);
      if k !in g.refs then Success(Groups(f.parents, g.refs, g.warnings + [TagWithoutTrigger(t.tag)]))
      else Success(Groups(f.parents, g.refs[k := g.refs[k] + [t.tag]], g.warnings))
  }

  /** The tag loop over the `[Tags]` entries in enumeration order. */
  function TagPhase(ts: seq<TagRef>, g: Groups): (r: Result<Groups, Crash>)
    ensures r.Failure? ==> r.error.EndlessRecursion?
    ensures r.Success? ==> forall w :: UF.Rep(r.value.parents, w) == UF.Rep(g.parents, w)
    ensures r.Success? ==> |g.warnings| <= |r.value.warnings| && r.value.warnings[..|g.warnings|] == g.warnings
    decreases |ts|
  {
    if |ts| == 0 then Success(g)
    else
      var g1 :- AttachTag(g, ts[0]);
      TagPhase(ts[1..], g1)
  }

  /** The tag `t` as a member of the group with key `k`: itself or nothing. */
  function MemberOf(p: UF.Parents, k: string, t: TagRef): seq<string>
  {
    if RepKey(p, t.target) == Some(k) then [t.tag] else []
  }

  /** The warning for `t` when its representative has no group among `keys`. */
  function OrphanOf(p: UF.Parents, keys: set<string>, t: TagRef): seq<Warning>
  {
    match RepKey(p, t.target)
    case Some(k) => if k in keys then [] else [TagWithoutTrigger(t.tag)]
    case None => []
  }

  /** Reference definition: the tags, in order, whose trigger's representative has key `k`. */
  function GroupOf(ts: seq<TagRef>, p: UF.Parents, k: string): seq<string>
    decreases |ts|
  {
    if |ts| == 0 then [] else MemberOf(p, k, ts[0]) + GroupOf(ts[1..], p, k)
  }

  /** Reference definition: a warning for each tag whose representative's key is not in `keys`. */
  function Orphans(ts: seq<TagRef>, p: UF.Parents, keys: set<string>): seq<Warning>
    decreases |ts|
  {
    if |ts| == 0 then [] else OrphanOf(p, keys, ts[0]) + Orphans(ts[1..], p, keys)
  }

  /** Two parent maps give every value the same representative. */
  ghost predicate SameReps(p: UF.Parents, q: UF.Parents)
  {
    forall w :: UF.Rep(p, w) == UF.Rep(q, w)
  }

  lemma {:induction false} SameRepsTrans(p: UF.Parents, q: UF.Parents, s: UF.Parents)
    requires SameReps(p, q) && SameReps(q, s)
    ensures SameReps(p, s)
  {
  }

  lemma {:induction false} SameRepsSameGroups(ts: seq<TagRef>, p: UF.Parents, q: UF.Parents, keys: set<string>)
    requires SameReps(p, q)
    ensures forall k :: GroupOf(ts, p, k) == GroupOf(ts, q, k)
    ensures Orphans(ts, p, keys) == Orphans(ts, q, keys)
    decreases |ts|
  {
    if |ts| > 0 {
      SameRepsSameGroups(ts[1..], p, q, keys);
      assert RepKey(p, ts[0].target) == RepKey(q, ts[0].target);
      assert OrphanOf(p, keys, ts[0]) == OrphanOf(q, keys, ts[0]);
    }
  }

  /** One attached tag, in the terms of `GroupOf` and `Orphans`. */
  lemma {:induction false} AttachTagStep(g: Groups, t: TagRef)
    requires AttachTag(g, t).Success?
    ensures var r := AttachTag(g, t).value;
            && r.refs.Keys == g.refs.Keys
            && (forall k | k in g.refs :: r.refs[k] == g.refs[k] + MemberOf(g.parents, k, t))
            && r.warnings == g.warnings + OrphanOf(g.parents, g.refs.Keys, t)
            && SameReps(r.parents, g.parents)
  {
  }

  /** The tag loop crashes exactly when some tag's trigger chain never reaches a fixed point. */
  lemma {:induction false} TagPhaseFails(ts: seq<TagRef>, g: Groups)
    ensures TagPhase(ts, g).Failure? <==> exists i | 0 <= i < |ts| :: RepKey(g.parents, ts[i].target).None?
    ensures TagPhase(ts, g).Failure? ==> TagPhase(ts, g).error.EndlessRecursion?
    decreases |ts|
  {
    if |ts| > 0 {
      var a := AttachTag(g, ts[0]);
      if a.Success? {
        var g1 := a.value;
        TagPhaseFails(ts[1..], g1);
        assert TagPhase(ts, g) == TagPhase(ts[1..], g1);
        assert forall i | 1 <= i < |ts| :: ts[i] == ts[1..][i - 1];
        assert forall i | 1 <= i < |ts| :: RepKey(g1.parents, ts[i].target) == RepKey(g.parents, ts[i].target);
      }
    }
  }

  /** `r` is what the tag loop over `ts` should leave, starting from `g`. */
  ghost predicate GroupsAfter(ts: seq<TagRef>, g: Groups, r: Groups)
  {
    && r.refs.Keys == g.refs.Keys
    && (forall k | k in g.refs :: r.refs[k] == g.refs[k] + GroupOf(ts, g.parents, k))
    && r.warnings == g.warnings + Orphans(ts, g.parents, g.refs.Keys)
    && SameReps(r.parents, g.parents)
  }

  /** The groups after the first tag and the rest of the loop are the groups of the whole loop. */
  lemma {:induction false} GroupsCombine(ts: seq<TagRef>, g: Groups, g1: Groups, r: Groups)
    requires |ts| > 0
    requires g1.refs.Keys == g.refs.Keys && r.refs.Keys == g1.refs.Keys
    requires forall k | k in g.refs :: g1.refs[k] == g.refs[k] + MemberOf(g.parents, k, ts[0])
    requires forall k | k in g1.refs :: r.refs[k] == g1.refs[k] + GroupOf(ts[1..], g1.parents, k)
    requires forall k :: GroupOf(ts[1..], g1.parents, k) == GroupOf(ts[1..], g.parents, k)
    ensures forall k | k in g.refs :: r.refs[k] == g.refs[k] + GroupOf(ts, g.parents, k)
  {
    forall k | k in g.refs
      ensures r.refs[k] == g.refs[k] + GroupOf(ts, g.parents, k)
    {
      var m, rest := MemberOf(g.parents, k, ts[0]), GroupOf(ts[1..], g.parents, k);
      assert GroupOf(ts, g.parents, k) == m + rest;
      AppendThree(g.refs[k], m, rest, g1.refs[k], r.refs[k]);
    }
  }

  lemma {:induction false} AppendThree<T>(a: seq<T>, b: seq<T>, c: seq<T>, x: seq<T>, y: seq<T>)
    requires x == a + b && y == x + c
    ensures y == a + (b + c)
  {
  }

  /** The warnings after the first tag and the rest of the loop are the warnings of the whole loop. */
  lemma {:induction false} OrphansCombine(ts: seq<TagRef>, g: Groups, g1: Groups, r: Groups)
    requires |ts| > 0
    requires g1.warnings == g.warnings + OrphanOf(g.parents, g.refs.Keys, ts[0])
    requires r.warnings == g1.warnings + Orphans(ts[1..], g.parents, g.refs.Keys)
    ensures r.warnings == g.warnings + Orphans(ts, g.parents, g.refs.Keys)
  {
    assert r.warnings == g.warnings + (OrphanOf(g.parents, g.refs.Keys, ts[0]) + Orphans(ts[1..], g.parents, g.refs.Keys));
  }

  /**
    After the tag loop each group holds, in enumeration order, exactly the
    tags whose trigger has that group's trigger as representative; every
    other tag gets one warning; and every value keeps its representative.
   */
  lemma {:induction false} TagPhaseGroups(ts: seq<TagRef>, g: Groups)
    requires TagPhase(ts, g).Success?
    ensures GroupsAfter(ts, g, TagPhase(ts, g).value)
    decreases |ts|
  {
    if |ts| > 0 {
      var g1 := AttachTag(g, ts[0]).value;
      var r := TagPhase(ts[1..], g1).value;
      assert TagPhase(ts, g).value == r;
      AttachTagStep(g, ts[0]);
      TagPhaseGroups(ts[1..], g1);
      SameRepsSameGroups(ts[1..], g1.parents, g.parents, g.refs.Keys);
      GroupsCombine(ts, g, g1, r);
      OrphansCombine(ts, g, g1, r);
      SameRepsTrans(r.parents, g1.parents, g.parents);
    }
  }

  // ------------------------------------------------------------ reading the configuration

  lemma {:induction false} NatToStringInjective(i: nat, j: nat)
    requires NatToString(i) == NatToString(j)
    ensures i == j
  {
    NatToStringValue(i);
    NatToStringValue(j);
  }

  /** The numerals "0", "1", ..., of the indices below `n`. */
  function IndexKeys(n: nat): (ks: seq<string>)
    ensures |ks| == n
    ensures forall i | 0 <= i < n :: ks[i] == NatToString(i)
  {
    seq(n, i requires 0 <= i < n => NatToString(i))
  }

  lemma {:induction false} IndexKeysDistinct(n: nat)
    ensures forall i, j | 0 <= i < j < n :: IndexKeys(n)[i] != IndexKeys(n)[j]
  {
    forall i, j | 0 <= i < j < n
      ensures IndexKeys(n)[i] != IndexKeys(n)[j]
    {
      if IndexKeys(n)[i] == IndexKeys(n)[j] {
        NatToStringInjective(i, j);
      }
    }
  }

  /** Each index numeral reads back as its index. */
  lemma {:induction false} IndexKeysValues(n: nat)
    ensures forall i | 0 <= i < n :: DigitsValue(IndexKeys(n)[i], 10) == i
    ensures forall k | k in IndexKeys(n) :: DigitsValue(k, 10) < n
  {
    forall i | 0 <= i < n
      ensures DigitsValue(IndexKeys(n)[i], 10) == i
    {
      NatToStringValue(i);
    }
  }

  /** The one-character strings of `s`, keyed by the numerals of their indices. */
  function IndexMap(s: string): (vals: map<string, string>)
    ensures vals.Keys == set k | k in IndexKeys(|s|)
  {
    IndexKeysValues(|s|);
    map k | k in IndexKeys(|s|) :: [s[DigitsValue(k, 10)]]
  }

  lemma {:induction false} IndexMapAt(s: string, i: nat)
    requires i < |s|
    ensures IndexKeys(|s|)[i] in IndexMap(s) && IndexMap(s)[IndexKeys(|s|)[i]] == [s[i]]
  {
    IndexKeysValues(|s|);
  }

  /**
    A string where the builder expects a section: `for ... in` visits its
    indices "0", "1", ... and indexing yields one-character strings.
   */
  function StringAsObject(s: string): (m: OMap<string>)
    ensures m.Valid()
    ensures m.keys == IndexKeys(|s|)
    ensures forall i | 0 <= i < |s| :: m.vals[m.keys[i]] == [s[i]]
  {
    IndexKeysDistinct(|s|);
    assert forall i | 0 <= i < |s| :: IndexMap(s)[IndexKeys(|s|)[i]] == [s[i]] by {
      forall i | 0 <= i < |s|
        ensures IndexMap(s)[IndexKeys(|s|)[i]] == [s[i]]
      {
        IndexMapAt(s, i);
      }
    }
    OMap(IndexKeys(|s|), IndexMap(s))
  }

  /** `config.<name>`: missing, a section object, or a string read through its indices. */
  function Member(config: OMap<Entry>, name: string): (r: Option<OMap<string>>)
    requires ConfigValid(config)
    ensures r.None? <==> name !in config.vals
    ensures r.Some? ==> r.value.Valid()
    ensures name in config.vals && config.vals[name].Section? ==> r == Some(config.vals[name].body)
  {
    if name !in config.vals then None
    else match config.vals[name]
      case Section(body) => Some(body)
      case Text(v) => Some(StringAsObject(v))
  }

  /**
    The five members of the configuration the builder reads. When
    `config.Events` or `config.Actions` is a string, `eventsLength` or
    `actionsLength` holds its `length`, which the key "length" reads.
   */
  datatype Sections = Sections(triggers: Option<OMap<string>>, tags: Option<OMap<string>>,
                               events: Option<OMap<string>>, actions: Option<OMap<string>>,
                               variables: Option<OMap<string>>,
                               eventsLength: Option<nat>, actionsLength: Option<nat>)
  {
    predicate Valid()
    {
      && (triggers.Some? ==> triggers.value.Valid())
      && (tags.Some? ==> tags.value.Valid())
      && (events.Some? ==> events.value.Valid())
      && (actions.Some? ==> actions.value.Valid())
      && (variables.Some? ==> variables.value.Valid())
    }
  }

  function ReadSections(config: OMap<Entry>): (sec: Sections)
    requires ConfigValid(config)
    ensures sec.Valid()
  {
    Sections(Member(config, "Triggers"), Member(config, "Tags"), Member(config, "Events"),
             Member(config, "Actions"), Member(config, "VariableNames"),
             StringLength(config, "Events"), StringLength(config, "Actions"))
  }

  /** The `length` of `config.<name>` when that member is a string. */
  function StringLength(config: OMap<Entry>, name: string): Option<nat>
  {
    if name in config.vals && config.vals[name].Text? then Some(|config.vals[name].value|) else None
  }

  /**
    Whether `obj[id]` on a string member reads its non-zero `length`: a number,
    which is truthy, so the parser calls `split` on it and throws.
   */
  predicate ReadsLength(length: Option<nat>, id: string)
  {
    id == "length" && length.Some? && length.value > 0
  }

  /**
    A trigger named "length" next to a non-empty string `Events=` or
    `Actions=` pair reads a number, so its events or actions cannot be
    parsed; a string member's index keys read as before.
   */
  lemma {:induction false} StringMemberLength(config: OMap<Entry>, s: string)
    requires ConfigValid(config) && "Events" in config.vals && config.vals["Events"] == Text(s)
    ensures |s| > 0 ==> EventsOf(ReadSections(config), "length").None?
    ensures |s| == 0 ==> EventsOf(ReadSections(config), "length") == Some([])
    ensures forall i | 0 <= i < |s| ::
              EventsOf(ReadSections(config), IndexKeys(|s|)[i]) == Some(ParseEvents(Str([s[i]])))
  {
    var sec := ReadSections(config);
    var m := StringAsObject(s);
    assert sec.events == Some(m) && sec.eventsLength == Some(|s|);
    forall i | 0 <= i < |s|
      ensures EventsOf(sec, IndexKeys(|s|)[i]) == Some(ParseEvents(Str([s[i]])))
    {
      var k := IndexKeys(|s|)[i];
      assert m.vals[m.keys[i]] == [s[i]];
      assert k[0] != 'l';
    }
    if |s| == 0 {
      assert "length" !in m.vals by {
        assert m.keys == IndexKeys(0);
      }
    }
  }

  /** `!config.Triggers`: the member is missing or is the empty string. */
  predicate NoTriggersSection(config: OMap<Entry>)
  {
    "Triggers" !in config.vals || config.vals["Triggers"] == Text("")
  }

  /** The keys of an optional section in `for ... in` order; none for a missing one. */
  function KeysOf(o: Option<OMap<string>>): (ks: seq<string>)
    ensures o.None? ==> ks == []
    ensures o.Some? && o.value.Valid() ==> forall k :: k in ks <==> k in o.value.vals
    ensures o.Some? && o.value.Valid() ==> forall i | 0 <= i < |ks| :: ks[i] in o.value.vals
  {
    match o
    case None => []
    case Some(m) =>
      ForInOrderMembers(m.keys);
      ForInOrder(m.keys)
  }

  // ------------------------------------------------------------ the try block

  /** What the `try` block leaves: the builder and the trigger's `events` and `actions`. */
  datatype Streamed = Streamed(b: Builder, events: Option<seq<Event>>, actions: Option<seq<Action>>)

  function OrEmpty<T>(o: Option<seq<T>>): seq<T>
  {
    match o case Some(xs) => xs case None => []
  }

  /**
    `config.Events[id]`, parsed: `None` when the line throws, because
    `config.Events` is missing or because `id` reads the `length` of a string.
   */
  function EventsOf(sec: Sections, id: string): (r: Option<seq<Event>>)
    ensures r.None? <==> sec.events.None? || ReadsLength(sec.eventsLength, id)
  {
    match sec.events
    case None => None
    case Some(ev) =>
      if ReadsLength(sec.eventsLength, id) then None else Some(ParseEvents(Lookup(ev, id)))
  }

  /**
    `config.Actions[id]`, parsed: `None` when the events line already threw,
    `config.Actions` is missing, or `id` reads the `length` of a string.
   */
  function ActionsOf(sec: Sections, id: string): (r: Option<seq<Action>>)
    ensures r.Some? ==> EventsOf(sec, id).Some?
    ensures r.None? <==> EventsOf(sec, id).None? || sec.actions.None? || ReadsLength(sec.actionsLength, id)
  {
    if EventsOf(sec, id).None? then None
    else match sec.actions
      case None => None
      case Some(ac) =>
        if ReadsLength(sec.actionsLength, id) then None else Some(ParseActions(Lookup(ac, id)))
  }

  /**
    The `try` block for trigger `id` given what its two lines read: the
    events take effect when they could be read; a failed read of either
    line earns the trigger one "error in events or actions" warning.
   */
  function RunStreams(b: Builder, id: string, events: Option<seq<Event>>, actions: Option<seq<Action>>)
    : (r: Streamed)
    requires Inv(b)
    requires actions.Some? ==> events.Some?
    ensures Inv(r.b)
    ensures r.events == events && r.actions == actions
    ensures r.b.warnings == b.warnings + (if actions.None? then [EventsOrActionsFailed(id)] else [])
    ensures r.b.edges == b.edges + EventEdges(OrEmpty(events), id) + ActionEdges(OrEmpty(actions), id)
    ensures r.b.parents == b.parents && Extends(b, r.b)
  {
    match events
    case None => Streamed(b.(warnings := b.warnings + [EventsOrActionsFailed(id)]), None, None)
    case Some(es) =>
      var b1 := ApplyEvents(b, es, id);
      ApplyEventsEffect(b, es, id);
      match actions
      case None => Streamed(b1.(warnings := b1.warnings + [EventsOrActionsFailed(id)]), events, None)
      case Some(acts) =>
        ApplyActionsEffect(b1, acts, id);
        ExtendsTrans(b, b1, ApplyActions(b1, acts, id));
        Streamed(ApplyActions(b1, acts, id), events, actions)
  }

  // ------------------------------------------------------------ the trigger loop

  /** `b` turns into `r` by adding: nodes and ids are kept, edges and warnings only grow, representatives stay. */
  ghost predicate Later(b: Builder, r: Builder)
  {
    && Extends(b, r)
    && |b.edges| <= |r.edges| && r.edges[..|b.edges|] == b.edges
    && |b.warnings| <= |r.warnings| && r.warnings[..|b.warnings|] == b.warnings
    && SameReps(r.parents, b.parents)
  }

  lemma {:induction false} LaterTrans(a: Builder, b: Builder, c: Builder)
    requires Later(a, b) && Later(b, c)
    ensures Later(a, c)
  {
    ExtendsTrans(a, b, c);
    SameRepsTrans(c.parents, b.parents, a.parents);
    assert c.edges[..|a.edges|] == c.edges[..|b.edges|][..|a.edges|];
    assert c.warnings[..|a.warnings|] == c.warnings[..|b.warnings|][..|a.warnings|];
  }

  /** A warning once issued stays among the warnings. */
  lemma {:induction false} LaterKeepsWarning(b: Builder, r: Builder, w: Warning)
    requires Later(b, r) && w in b.warnings
    ensures w in r.warnings
  {
    var i :| 0 <= i < |b.warnings| && b.warnings[i] == w;
    assert r.warnings[..|b.warnings|][i] == w;
  }

  /** The edge `link.trim() !== '<none>'` draws from a trigger to its link. */
  function LinkEdges(id: string, link: string): (r: seq<Edge>)
    ensures |r| <= 1
    ensures |r| == 1 <==> Trim(link) != "<none>"
    ensures |r| == 1 ==> r[0].from == id && r[0].to == link && r[0].colorType == Link && r[0].bothWays
  {
    if Trim(link) != "<none>" then [Edge(id, link, Link, false, true)] else []
  }

  /** The trigger object: fields 0 to 6 of the trigger's value, its group and the first tag's repeat. */
  function MakeTrigger(id: string, fields: seq<string>, group: seq<string>, repeat: Option<int>,
                       events: Option<seq<Event>>, actions: Option<seq<Action>>): (n: Node)
    requires |fields| >= 2
    ensures n.id == id && n.neighbours == []
    ensures n.TriggerNode? && n.tags == group && n.repeat == repeat && n.link == fields[1]
  {
    TriggerNode(id, Field(fields, 2), Field(fields, 0),
                ParseIntVal(Field(fields, 4)), ParseIntVal(Field(fields, 5)), ParseIntVal(Field(fields, 6)),
                ParseIntVal(Field(fields, 3)), group, repeat, fields[1], events, actions, [])
  }

  /** The warning of a `try` block whose actions (or events) could not be read. */
  function StreamWarning(id: string, actions: Option<seq<Action>>): seq<Warning>
  {
    if actions.None? then [EventsOrActionsFailed(id)] else []
  }

  /** `b` turns into `r` by appending to the edges and warnings and adding nodes; parents stay. */
  ghost predicate Appended(b: Builder, r: Builder)
  {
    && Extends(b, r)
    && |b.edges| <= |r.edges| && r.edges[..|b.edges|] == b.edges
    && |b.warnings| <= |r.warnings| && r.warnings[..|b.warnings|] == b.warnings
    && r.parents == b.parents
  }

  lemma {:induction false} AppendedTrans(a: Builder, b: Builder, c: Builder)
    requires Appended(a, b) && Appended(b, c)
    ensures Appended(a, c)
  {
    ExtendsTrans(a, b, c);
    assert c.edges[..|a.edges|] == c.edges[..|b.edges|][..|a.edges|];
    assert c.warnings[..|a.warnings|] == c.warnings[..|b.warnings|][..|a.warnings|];
  }

  lemma {:induction false} AppendedBy(b: Builder, r: Builder, es: seq<Edge>, ws: seq<Warning>)
    requires r.edges == b.edges + es && r.warnings == b.warnings + ws
    requires r.parents == b.parents && Extends(b, r)
    ensures Appended(b, r)
  {
    assert r.edges[..|b.edges|] == b.edges;
    assert r.warnings[..|b.warnings|] == b.warnings;
  }

  /** `edges.push(...)` for the link edge, when there is one. */
  function AddLink(b: Builder, id: string, link: string): (r: Builder)
    requires Inv(b)
    ensures Inv(r) && Appended(b, r)
    ensures r.edges == b.edges + LinkEdges(id, link)
    ensures r.nodes == b.nodes && r.uniqueIds == b.uniqueIds && r.warnings == b.warnings
  {
    var r := b.(edges := b.edges + LinkEdges(id, link));
    assert r.edges[..|b.edges|] == b.edges;
    r
  }

  /** The duplicate check: a taken id earns a warning, a fresh one gets the node. */
  function AddTriggerNode(b: Builder, node: Node): (r: Builder)
    requires Inv(b) && node.neighbours == []
    ensures Inv(r) && Appended(b, r)
    ensures node.id in r.uniqueIds && r.edges == b.edges
    ensures node.id in b.uniqueIds ==> r.nodes == b.nodes && r.warnings == b.warnings + [DuplicateId(node.id)]
    ensures node.id !in b.uniqueIds ==>
              OrderedMap.Get(r.nodes, node.id) == Some(node) && r.warnings == b.warnings &&
              r.uniqueIds == b.uniqueIds + {node.id}
  {
    if node.id in b.uniqueIds then
      var r := b.(warnings := b.warnings + [DuplicateId(node.id)]);
      assert r.warnings[..|b.warnings|] == b.warnings;
      r
    else b.(nodes := Put(b.nodes, node.id, node), uniqueIds := b.uniqueIds + {node.id})
  }

  /**
    The part of the trigger loop after the trigger's group `group` is known
    to be non-empty: the first tag's repeat, the `try` block, the link edge,
    and the node itself unless its id is taken.
   */
  function PlaceTrigger(sec: Sections, b: Builder, id: string, fields: seq<string>, group: seq<string>)
    : (r: Result<Builder, Crash>)
    requires Inv(b) && |group| > 0
    ensures r.Success? ==> Inv(r.value) && Appended(b, r.value)
    ensures r.Success? ==> id in r.value.uniqueIds
    ensures r.Failure? <==> (sec.tags.None? || group[0] !in sec.tags.value.vals || |fields| < 2)
    ensures r.Failure? ==>
              r.error == if sec.tags.None? || group[0] !in sec.tags.value.vals then NoTagValue(group[0]) else UndefinedLink(id)
    ensures r.Success? ==>
              || DuplicateId(id) in r.value.warnings
              || (id in r.value.nodes.vals && r.value.nodes.vals[id].TriggerNode? && r.value.nodes.vals[id].tags == group)
    ensures r.Success? ==> r.value.edges == b.edges + EventEdges(OrEmpty(EventsOf(sec, id)), id)
                                          + ActionEdges(OrEmpty(ActionsOf(sec, id)), id) + LinkEdges(id, fields[1])
    ensures r.Success? ==>
              var ws := b.warnings + StreamWarning(id, ActionsOf(sec, id));
              || r.value.warnings == ws + [DuplicateId(id)]
              || (&& r.value.warnings == ws
                  && OrderedMap.Get(r.value.nodes, id) ==
                       Some(MakeTrigger(id, fields, group, RepeatOf(sec.tags.value.vals[group[0]]),
                                        EventsOf(sec, id), ActionsOf(sec, id))))
  {
    var first := group[0];
    if sec.tags.None? || first !in sec.tags.value.vals then Failure(NoTagValue(first))
    else if |fields| < 2 then Failure(UndefinedLink(id))
    else
      TriggerPlacedWarnings(b, id, fields, group, RepeatOf(sec.tags.value.vals[first]), EventsOf(sec, id), ActionsOf(sec, id));
      Success(TriggerPlaced(b, id, fields, group, RepeatOf(sec.tags.value.vals[first]),
                               EventsOf(sec, id), ActionsOf(sec, id)))
  }

  /** The `try` block, the link edge and the duplicate check, for a trigger whose value has a link field. */
  function TriggerPlaced(b: Builder, id: string, fields: seq<string>, group: seq<string>, repeat: Option<int>,
                         events: Option<seq<Event>>, actions: Option<seq<Action>>): (r: Builder)
    requires Inv(b) && |fields| >= 2
    requires actions.Some? ==> events.Some?
    ensures Inv(r) && Appended(b, r)
    ensures id in r.uniqueIds
    ensures r.edges == b.edges + EventEdges(OrEmpty(events), id) + ActionEdges(OrEmpty(actions), id)
                      + LinkEdges(id, fields[1])
  {
    var st := RunStreams(b, id, events, actions);
    var b1 := AddLink(st.b, id, fields[1]);
    var r := AddTriggerNode(b1, MakeTrigger(id, fields, group, repeat, events, actions));
    AppendedChain(b, st.b, b1, r, EventEdges(OrEmpty(events), id), ActionEdges(OrEmpty(actions), id),
                  LinkEdges(id, fields[1]), StreamWarning(id, actions));
    r
  }

  /** The three steps of `TriggerPlaced` together append their edges in order. */
  lemma {:induction false} AppendedChain(b: Builder, s: Builder, b1: Builder, r: Builder,
                                         ev: seq<Edge>, ac: seq<Edge>, ln: seq<Edge>, ws: seq<Warning>)
    requires s.edges == b.edges + ev + ac && s.warnings == b.warnings + ws
    requires s.parents == b.parents && Extends(b, s)
    requires Appended(s, b1) && b1.edges == s.edges + ln
    requires Appended(b1, r) && r.edges == b1.edges
    ensures Appended(b, r) && r.edges == b.edges + ev + ac + ln
  {
    AppendedBy(b, s, ev + ac, ws);
    AppendedTrans(b, s, b1);
    AppendedTrans(b, b1, r);
  }

  /**
    After the `try` block and the link edge, the trigger either earns a
    "duplicated" warning or becomes the node under its id; a taken id always
    earns the warning.
   */
  lemma {:induction false} TriggerPlacedWarnings(b: Builder, id: string, fields: seq<string>, group: seq<string>,
                                                 repeat: Option<int>, events: Option<seq<Event>>,
                                                 actions: Option<seq<Action>>)
    requires Inv(b) && |fields| >= 2
    requires actions.Some? ==> events.Some?
    ensures var r := TriggerPlaced(b, id, fields, group, repeat, events, actions);
            var ws := b.warnings + StreamWarning(id, actions);
            && (|| r.warnings == ws + [DuplicateId(id)]
                || (r.warnings == ws && OrderedMap.Get(r.nodes, id) == Some(MakeTrigger(id, fields, group, repeat, events, actions))))
            && (id in b.uniqueIds ==> r.warnings == ws + [DuplicateId(id)])
  {
    var st := RunStreams(b, id, events, actions);
    var b1 := AddLink(st.b, id, fields[1]);
    assert b1.warnings == b.warnings + StreamWarning(id, actions) && b.uniqueIds <= b1.uniqueIds;
    assert TriggerPlaced(b, id, fields, group, repeat, events, actions)
        == AddTriggerNode(b1, MakeTrigger(id, fields, group, repeat, events, actions));
  }


  /** `parseInt(value.split(',')[0])` for the value of a trigger's first tag. */
  function RepeatOf(tagValue: string): Option<int>
  {
    ParseIntVal(Field(Split(tagValue, ','), 0))
  }

  /**
    One iteration of the trigger loop for the trigger `id`, with `refs` the
    tag groups. It crashes when `findRep(id)` does not return, when the
    representative has no group, when the first tag has no value, or when
    the trigger value has no link field.
   */
  function ProcessTrigger(sec: Sections, refs: map<string, seq<string>>, b: Builder, id: string)
    : (r: Result<Builder, Crash>)
    requires sec.triggers.Some? && id in sec.triggers.value.vals
    requires Inv(b)
    ensures r.Success? ==> Inv(r.value) && Later(b, r.value)
    ensures RepKey(b.parents, Str(id)).None? <==> r == Failure(EndlessRecursion(Str(id)))
    ensures RepKey(b.parents, Str(id)).Some? && RepKey(b.parents, Str(id)).value !in refs <==>
              r == Failure(NoGroup(id))
  {
    match UF.FindRep(b.parents, Str(id))
    case None => Failure(EndlessRecursion(Str(id)))
    case Some(f) =>
      UF.CompressKeepsReps(b.parents, Str(id));
      var b0 := b.(parents := f.parents);
      var rk := UF.Key(f.rep);
      if rk !in refs then Failure(NoGroup(id))
      else if |refs[rk]| == 0 then
        var r := b0.(warnings := b0.warnings + [TriggerWithoutTags(id)]);
        assert r.warnings[..|b.warnings|] == b.warnings;
        Success(r)
      else
        match PlaceTrigger(sec, b0, id, Split(sec.triggers.value.vals[id], ','), refs[rk])
        case Failure(e) => Failure(e)
        case Success(r) => Success(r)
  }


  /**
    A processed trigger had a representative with a group. With an empty
    group it only earns the "doesn't have any tags" warning; otherwise its id
    is taken, and it is a trigger node holding the group unless the id was
    reported as a duplicate.
   */
  lemma {:induction false} ProcessTriggerOutcome(sec: Sections, refs: map<string, seq<string>>, b: Builder, id: string)
    requires sec.triggers.Some? && id in sec.triggers.value.vals
    requires Inv(b)
    requires ProcessTrigger(sec, refs, b, id).Success?
    ensures var r := ProcessTrigger(sec, refs, b, id).value;
            var k := RepKey(b.parents, Str(id));
            && k.Some? && k.value in refs
            && (|refs[k.value]| == 0 ==>
                  r.warnings == b.warnings + [TriggerWithoutTags(id)] && r.nodes == b.nodes && r.edges == b.edges)
            && (|refs[k.value]| > 0 ==>
                  && id in r.uniqueIds
                  && (|| DuplicateId(id) in r.warnings
                      || (id in r.nodes.vals && r.nodes.vals[id].TriggerNode? && r.nodes.vals[id].tags == refs[k.value])))
  {
    var f := UF.FindRep(b.parents, Str(id)).value;
    assert UF.Rep(b.parents, Str(id)) == Some(f.rep);
  }


  /** The trigger loop over `ids`, the keys of `[Triggers]` in enumeration order. */
  function TriggerPhase(sec: Sections, refs: map<string, seq<string>>, ids: seq<string>, b: Builder)
    : (r: Result<Builder, Crash>)
    requires sec.triggers.Some? && forall i | 0 <= i < |ids| :: ids[i] in sec.triggers.value.vals
    requires Inv(b)
    ensures r.Success? ==> Inv(r.value) && Later(b, r.value)
    decreases |ids|
  {
    if |ids| == 0 then
      assert b.edges[..|b.edges|] == b.edges && b.warnings[..|b.warnings|] == b.warnings;
      Success(b)
    else
      match ProcessTrigger(sec, refs, b, ids[0])
      case Failure(e) => Failure(e)
      case Success(b1) =>
        match TriggerPhase(sec, refs, ids[1..], b1)
        case Failure(e) => Failure(e)
        case Success(r) =>
          LaterTrans(b, b1, r);
          Success(r)
  }

  /** What the trigger loop leaves for one trigger, in terms of the groups it started from. */
  ghost predicate TriggerDone(refs: map<string, seq<string>>, p: UF.Parents, r: Builder, id: string)
  {
    var k := RepKey(p, Str(id));
    && k.Some? && k.value in refs
    && (|refs[k.value]| == 0 ==> TriggerWithoutTags(id) in r.warnings)
    && (|refs[k.value]| > 0 ==>
          && id in r.nodes.vals
          && (|| DuplicateId(id) in r.warnings
              || (r.nodes.vals[id].TriggerNode? && r.nodes.vals[id].tags == refs[k.value])))
  }

  /** A trigger's outcome survives the rest of the loop. */
  lemma {:induction false} TriggerDoneLater(refs: map<string, seq<string>>, p: UF.Parents, b: Builder, r: Builder, id: string)
    requires TriggerDone(refs, p, b, id) && Later(b, r)
    ensures TriggerDone(refs, p, r, id)
  {
    var k := RepKey(p, Str(id)).value;
    if |refs[k]| == 0 {
      LaterKeepsWarning(b, r, TriggerWithoutTags(id));
    } else if DuplicateId(id) in b.warnings {
      LaterKeepsWarning(b, r, DuplicateId(id));
    }
  }

  lemma {:induction false} SameRepsSameKey(p: UF.Parents, q: UF.Parents, v: Val)
    requires SameReps(p, q)
    ensures RepKey(p, v) == RepKey(q, v)
  {
  }

  /**
    After a successful trigger loop every trigger had a group; each one with
    an empty group was reported, and each other one is a node, holding its
    group unless its id was reported as a duplicate.
   */
  lemma {:induction false} TriggerPhaseOutcome(sec: Sections, refs: map<string, seq<string>>, ids: seq<string>, b: Builder)
    requires sec.triggers.Some? && forall i | 0 <= i < |ids| :: ids[i] in sec.triggers.value.vals
    requires Inv(b)
    requires TriggerPhase(sec, refs, ids, b).Success?
    ensures forall i | 0 <= i < |ids| :: TriggerDone(refs, b.parents, TriggerPhase(sec, refs, ids, b).value, ids[i])
    decreases |ids|
  {
    if |ids| > 0 {
      var b1 := ProcessTrigger(sec, refs, b, ids[0]).value;
      var r := TriggerPhase(sec, refs, ids[1..], b1).value;
      assert TriggerPhase(sec, refs, ids, b).value == r;
      ProcessTriggerOutcome(sec, refs, b, ids[0]);
      assert TriggerDone(refs, b.parents, b1, ids[0]);
      TriggerDoneLater(refs, b.parents, b1, r, ids[0]);
      TriggerPhaseOutcome(sec, refs, ids[1..], b1);
      forall i | 1 <= i < |ids|
        ensures TriggerDone(refs, b.parents, r, ids[i])
      {
        assert ids[i] == ids[1..][i - 1];
        SameRepsSameKey(b1.parents, b.parents, Str(ids[i]));
      }
    }
  }


  /** Every group member is a key of `[Tags]`, so `config.Tags[first]` always has a value. */
  ghost predicate TagsKnown(sec: Sections, refs: map<string, seq<string>>)
  {
    forall k, i | k in refs && 0 <= i < |refs[k]| :: sec.tags.Some? && refs[k][i] in sec.tags.value.vals
  }

  lemma {:induction false} TagKnown(sec: Sections, refs: map<string, seq<string>>, k: string, i: nat)
    requires TagsKnown(sec, refs) && k in refs && i < |refs[k]|
    ensures sec.tags.Some? && refs[k][i] in sec.tags.value.vals
  {
  }

  /** Trigger `id` gets through the loop body: its chain ends, in a group, and a non-empty group finds a link field. */
  ghost predicate TriggerOk(sec: Sections, refs: map<string, seq<string>>, p: UF.Parents, id: string)
    requires sec.triggers.Some? && id in sec.triggers.value.vals
  {
    var k := RepKey(p, Str(id));
    && k.Some? && k.value in refs
    && (|refs[k.value]| > 0 ==> |Split(sec.triggers.value.vals[id], ',')| >= 2)
  }

  /** With known tags, one iteration crashes exactly when the trigger is not `TriggerOk`, and never for a missing tag value. */
  lemma {:induction false} ProcessTriggerCrash(sec: Sections, refs: map<string, seq<string>>, b: Builder, id: string)
    requires sec.triggers.Some? && id in sec.triggers.value.vals
    requires Inv(b) && TagsKnown(sec, refs)
    ensures var r := ProcessTrigger(sec, refs, b, id);
            && (r.Failure? <==> !TriggerOk(sec, refs, b.parents, id))
            && (r.Failure? ==> !r.error.NoTagValue?)
  {
    match UF.FindRep(b.parents, Str(id))
    case None =>
    case Some(f) =>
      assert UF.Rep(b.parents, Str(id)) == Some(f.rep);
      var k := UF.Key(f.rep);
      if k in refs && |refs[k]| > 0 {
        TagKnown(sec, refs, k, 0);
      }
  }

  /**
    With known tags, the trigger loop succeeds exactly when every trigger is
    `TriggerOk` under the parents it starts from, and it never crashes on a
    missing tag value.
   */
  lemma {:induction false} TriggerPhaseCrash(sec: Sections, refs: map<string, seq<string>>, ids: seq<string>, b: Builder)
    requires sec.triggers.Some? && forall i | 0 <= i < |ids| :: ids[i] in sec.triggers.value.vals
    requires Inv(b) && TagsKnown(sec, refs)
    ensures var r := TriggerPhase(sec, refs, ids, b);
            && (r.Success? <==> forall i | 0 <= i < |ids| :: TriggerOk(sec, refs, b.parents, ids[i]))
            && (r.Failure? ==> !r.error.NoTagValue?)
    decreases |ids|
  {
    if |ids| > 0 {
      ProcessTriggerCrash(sec, refs, b, ids[0]);
      var a := ProcessTrigger(sec, refs, b, ids[0]);
      if a.Success? {
        var b1 := a.value;
        assert TriggerPhase(sec, refs, ids, b) == TriggerPhase(sec, refs, ids[1..], b1);
        TriggerPhaseCrash(sec, refs, ids[1..], b1);
        forall i | 1 <= i < |ids|
          ensures TriggerOk(sec, refs, b1.parents, ids[1..][i - 1]) == TriggerOk(sec, refs, b.parents, ids[i])
        {
          assert ids[1..][i - 1] == ids[i];
          SameRepsSameKey(b1.parents, b.parents, Str(ids[i]));
        }
      }
    }
  }

  // ------------------------------------------------------------ local variables

  /** The node of the `[VariableNames]` entry `id`: its name and initial value. */
  function LocalNode(vars: OMap<string>, id: string): (n: Node)
    requires id in vars.vals
    ensures n.LocalVar? && n.id == "L" + id && n.neighbours == []
  {
    var fields := Split(vars.vals[id], ',');
    LocalVar("L" + id, Field(fields, 0), Field(fields, 1), [])
  }

  /** The nodes of the `[VariableNames]` keys `ids`, in order. */
  function LocalNodes(vars: OMap<string>, ids: seq<string>): (ns: seq<Node>)
    requires forall i | 0 <= i < |ids| :: ids[i] in vars.vals
    ensures |ns| == |ids|
    ensures forall i | 0 <= i < |ids| :: ns[i] == LocalNode(vars, ids[i])
  {
    seq(|ids|, i requires 0 <= i < |ids| => LocalNode(vars, ids[i]))
  }

  /** Nodes that share an id are the same node. */
  predicate Consistent(ns: seq<Node>)
  {
    forall i, j | 0 <= i < |ns| && 0 <= j < |ns| && ns[i].id == ns[j].id :: ns[i] == ns[j]
  }

  lemma {:induction false} LocalIdInjective(a: string, b: string)
    requires "L" + a == "L" + b
    ensures a == b
  {
    assert a == ("L" + a)[1..];
  }

  lemma {:induction false} LocalNodesConsistent(vars: OMap<string>, ids: seq<string>)
    requires forall i | 0 <= i < |ids| :: ids[i] in vars.vals
    ensures Consistent(LocalNodes(vars, ids))
  {
    var ns := LocalNodes(vars, ids);
    forall i, j | 0 <= i < |ns| && 0 <= j < |ns| && ns[i].id == ns[j].id
      ensures ns[i] == ns[j]
    {
      LocalIdInjective(ids[i], ids[j]);
    }
  }

  /** The ids of `ns`. */
  function Ids(ns: seq<Node>): set<string>
    decreases |ns|
  {
    if |ns| == 0 then {} else {ns[0].id} + Ids(ns[1..])
  }

  /** `nodes.set(n.id, n)` for each node in order: the locals loop. */
  function PutAll(nodes: OMap<Node>, ns: seq<Node>): (r: OMap<Node>)
    requires NodesFresh(nodes)
    requires forall i | 0 <= i < |ns| :: ns[i].neighbours == []
    ensures NodesFresh(r)
    decreases |ns|
  {
    if |ns| == 0 then
      assert nodes.keys[..|nodes.keys|] == nodes.keys;
      nodes
    else
      var m1 := Put(nodes, ns[0].id, ns[0]);
      PutAll(m1, ns[1..])
  }

  lemma {:induction false} IdsMembers(ns: seq<Node>)
    ensures forall i | 0 <= i < |ns| :: ns[i].id in Ids(ns)
    ensures forall k | k in Ids(ns) :: exists i | 0 <= i < |ns| :: ns[i].id == k
    decreases |ns|
  {
    if |ns| > 0 {
      IdsMembers(ns[1..]);
      assert forall i | 1 <= i < |ns| :: ns[i] == ns[1..][i - 1];
      forall k | k in Ids(ns)
        ensures exists i | 0 <= i < |ns| :: ns[i].id == k
      {
        if k != ns[0].id {
          var j :| 0 <= j < |ns[1..]| && ns[1..][j].id == k;
          assert ns[j + 1].id == k;
        }
      }
    }
  }

  lemma {:induction false} ConsistentTail(ns: seq<Node>)
    requires |ns| > 0 && Consistent(ns)
    ensures Consistent(ns[1..])
  {
    forall i, j | 0 <= i < |ns[1..]| && 0 <= j < |ns[1..]| && ns[1..][i].id == ns[1..][j].id
      ensures ns[1..][i] == ns[1..][j]
    {
      assert ns[1..][i] == ns[i + 1] && ns[1..][j] == ns[j + 1];
    }
  }

  /** The loop binds exactly the old ids and the written ones. */
  lemma {:induction false} PutAllKeys(nodes: OMap<Node>, ns: seq<Node>)
    requires NodesFresh(nodes)
    requires forall i | 0 <= i < |ns| :: ns[i].neighbours == []
    ensures forall k :: k in PutAll(nodes, ns).vals <==> k in nodes.vals || k in Ids(ns)
    decreases |ns|
  {
    if |ns| > 0 {
      var m1 := Put(nodes, ns[0].id, ns[0]);
      assert PutAll(nodes, ns) == PutAll(m1, ns[1..]);
      PutAllKeys(m1, ns[1..]);
    }
  }

  /** Nodes the loop does not write are as before. */
  lemma {:induction false} PutAllOthers(nodes: OMap<Node>, ns: seq<Node>)
    requires NodesFresh(nodes)
    requires forall i | 0 <= i < |ns| :: ns[i].neighbours == []
    ensures forall k | k in nodes.vals && k !in Ids(ns) ::
              k in PutAll(nodes, ns).vals && PutAll(nodes, ns).vals[k] == nodes.vals[k]
    decreases |ns|
  {
    if |ns| > 0 {
      var m1 := Put(nodes, ns[0].id, ns[0]);
      assert PutAll(nodes, ns) == PutAll(m1, ns[1..]);
      PutAllOthers(m1, ns[1..]);
    }
  }

  /** Keys are only ever appended, so the old nodes keep their places. */
  lemma {:induction false} PutAllKeyOrder(nodes: OMap<Node>, ns: seq<Node>)
    requires NodesFresh(nodes)
    requires forall i | 0 <= i < |ns| :: ns[i].neighbours == []
    ensures |nodes.keys| <= |PutAll(nodes, ns).keys| && PutAll(nodes, ns).keys[..|nodes.keys|] == nodes.keys
    decreases |ns|
  {
    if |ns| > 0 {
      var m1 := Put(nodes, ns[0].id, ns[0]);
      var r := PutAll(m1, ns[1..]);
      assert PutAll(nodes, ns) == r;
      PutAllKeyOrder(m1, ns[1..]);
      PutKeysPrefix(nodes, ns[0].id, ns[0]);
      PrefixTrans(nodes.keys, m1.keys, r.keys);
    }
  }

  lemma {:induction false} PutKeysPrefix<V>(m: OMap<V>, k: string, v: V)
    requires m.Valid()
    ensures |m.keys| <= |Put(m, k, v).keys| && Put(m, k, v).keys[..|m.keys|] == m.keys
  {
    assert (m.keys + [k])[..|m.keys|] == m.keys;
  }

  lemma {:induction false} PrefixTrans<T>(a: seq<T>, b: seq<T>, c: seq<T>)
    requires |a| <= |b| && b[..|a|] == a
    requires |b| <= |c| && c[..|b|] == b
    ensures |a| <= |c| && c[..|a|] == a
  {
    assert c[..|a|] == c[..|b|][..|a|];
  }

  /** Each written id holds its node (nodes that share an id agree). */
  lemma {:induction false} PutAllWritten(nodes: OMap<Node>, ns: seq<Node>)
    requires NodesFresh(nodes)
    requires forall i | 0 <= i < |ns| :: ns[i].neighbours == []
    requires Consistent(ns)
    ensures forall i | 0 <= i < |ns| :: ns[i].id in PutAll(nodes, ns).vals && PutAll(nodes, ns).vals[ns[i].id] == ns[i]
    decreases |ns|
  {
    if |ns| > 0 {
      var m1, t := Put(nodes, ns[0].id, ns[0]), ns[1..];
      var r := PutAll(m1, t);
      assert PutAll(nodes, ns) == r;
      ConsistentTail(ns);
      PutAllWritten(m1, t);
      PutAllKeys(m1, t);
      PutAllOthers(m1, t);
      forall i | 0 <= i < |ns|
        ensures ns[i].id in r.vals && r.vals[ns[i].id] == ns[i]
      {
        if i > 0 {
          assert ns[i] == t[i - 1];
        } else if ns[0].id in Ids(t) {
          IdsMembers(t);
          var j :| 0 <= j < |t| && t[j].id == ns[0].id;
          assert ns[j + 1] == t[j];
        }
      }
    }
  }

  // ------------------------------------------------------------ neighbours

  /** `node.neighbour.add(id)`: a set, kept here in insertion order. */
  function AddNeighbour(n: Node, id: string): (r: Node)
    ensures r == n.(neighbours := r.neighbours)
    ensures forall x :: x in r.neighbours <==> x in n.neighbours || x == id
    ensures Distinct(n.neighbours) ==> Distinct(r.neighbours)
  {
    if id in n.neighbours then n else n.(neighbours := n.neighbours + [id])
  }

  predicate Distinct(xs: seq<string>)
  {
    forall i, j | 0 <= i < j < |xs| :: xs[i] != xs[j]
  }

  /** Edge `e` links `k` to `x` when both ends are nodes of `keys`. */
  predicate Joins(keys: set<string>, e: Edge, k: string, x: string)
  {
    && e.from in keys && e.to in keys
    && ((e.from == k && e.to == x) || (e.to == k && e.from == x))
  }

  /** One edge of the neighbour loop: both ends learn of each other when both are nodes. */
  function Connect(m: OMap<Node>, e: Edge): (r: OMap<Node>)
    requires m.Valid()
    ensures r.Valid() && r.keys == m.keys && r.vals.Keys == m.vals.Keys
    ensures forall k | k in m.vals :: r.vals[k] == m.vals[k].(neighbours := r.vals[k].neighbours)
    ensures forall k, x | k in m.vals ::
              x in r.vals[k].neighbours <==> x in m.vals[k].neighbours || Joins(m.vals.Keys, e, k, x)
    ensures forall k | k in m.vals && Distinct(m.vals[k].neighbours) :: Distinct(r.vals[k].neighbours)
  {
    if e.from in m.vals && e.to in m.vals then
      JoinEndsNodes(m, e);
      JoinEndsNeighbours(m, e);
      JoinEndsDistinct(m, e);
      JoinEnds(m, e)
    else m
  }

  /** The two `neighbour.add` calls of an edge whose ends are both nodes. */
  function JoinEnds(m: OMap<Node>, e: Edge): (r: OMap<Node>)
    requires m.Valid() && e.from in m.vals && e.to in m.vals
    ensures r.Valid() && r.keys == m.keys && r.vals.Keys == m.vals.Keys
  {
    var m1 := Put(m, e.from, AddNeighbour(m.vals[e.from], e.to));
    Put(m1, e.to, AddNeighbour(m1.vals[e.to], e.from))
  }

  lemma {:induction false} JoinEndsNodes(m: OMap<Node>, e: Edge)
    requires m.Valid() && e.from in m.vals && e.to in m.vals
    ensures forall k | k in m.vals :: JoinEnds(m, e).vals[k] == m.vals[k].(neighbours := JoinEnds(m, e).vals[k].neighbours)
  {
  }

  lemma {:induction false} JoinEndsNeighbours(m: OMap<Node>, e: Edge)
    requires m.Valid() && e.from in m.vals && e.to in m.vals
    ensures forall k, x | k in m.vals ::
              x in JoinEnds(m, e).vals[k].neighbours <==> x in m.vals[k].neighbours || Joins(m.vals.Keys, e, k, x)
  {
    var r := JoinEnds(m, e);
    forall k, x | k in m.vals
      ensures x in r.vals[k].neighbours <==> x in m.vals[k].neighbours || Joins(m.vals.Keys, e, k, x)
    {
      if k != e.from && k != e.to {
        assert r.vals[k] == m.vals[k];
      }
    }
  }

  lemma {:induction false} JoinEndsDistinct(m: OMap<Node>, e: Edge)
    requires m.Valid() && e.from in m.vals && e.to in m.vals
    ensures forall k | k in m.vals && Distinct(m.vals[k].neighbours) :: Distinct(JoinEnds(m, e).vals[k].neighbours)
  {
  }

  /** `edges.forEach(...)`: every edge in order. */
  function NeighbourPass(m: OMap<Node>, es: seq<Edge>): (r: OMap<Node>)
    requires m.Valid()
    ensures r.Valid() && r.keys == m.keys && r.vals.Keys == m.vals.Keys
    decreases |es|
  {
    if |es| == 0 then m else NeighbourPass(Connect(m, es[0]), es[1..])
  }

  /** Reference definition: some edge of `es` joins `k` and `x`. */
  ghost predicate Linked(keys: set<string>, es: seq<Edge>, k: string, x: string)
  {
    exists i | 0 <= i < |es| :: Joins(keys, es[i], k, x)
  }

  /**
    After the neighbour loop a node's neighbours are the ones it had plus the
    nodes an edge joins it to; nothing else about a node changes, and no
    neighbour is listed twice.
   */
  lemma {:induction false} NeighbourPassEffect(m: OMap<Node>, es: seq<Edge>)
    requires m.Valid()
    ensures var r := NeighbourPass(m, es);
            && (forall k | k in m.vals :: r.vals[k] == m.vals[k].(neighbours := r.vals[k].neighbours))
            && (forall k, x | k in m.vals ::
                  x in r.vals[k].neighbours <==> x in m.vals[k].neighbours || Linked(m.vals.Keys, es, k, x))
            && (forall k | k in m.vals && Distinct(m.vals[k].neighbours) :: Distinct(r.vals[k].neighbours))
    decreases |es|
  {
    if |es| > 0 {
      var m1 := Connect(m, es[0]);
      var r := NeighbourPass(m1, es[1..]);
      assert NeighbourPass(m, es) == r;
      NeighbourPassEffect(m1, es[1..]);
      forall k, x | k in m.vals
        ensures x in r.vals[k].neighbours <==> x in m.vals[k].neighbours || Linked(m.vals.Keys, es, k, x)
      {
        if Linked(m.vals.Keys, es[1..], k, x) {
          var i :| 0 <= i < |es[1..]| && Joins(m.vals.Keys, es[1..][i], k, x);
          assert Joins(m.vals.Keys, es[i + 1], k, x);
        }
        if Linked(m.vals.Keys, es, k, x) {
          var i :| 0 <= i < |es| && Joins(m.vals.Keys, es[i], k, x);
          if i > 0 {
            assert Joins(m.vals.Keys, es[1..][i - 1], k, x);
          }
        }
      }
    }
  }


  // ------------------------------------------------------------ the whole builder

  /** `disjointTrigger` before the tags: each trigger points at its link, or at itself for "<none>". */
  function InitialParents(triggers: Option<OMap<string>>): UF.Parents
  {
    match triggers
    case None => map[]
    case Some(t) =>
      map id | id in t.vals ::
        var link := Field(Split(t.vals[id], ','), 1);
        if link == Str("<none>") then Str(id) else link
  }

  /** `triggerRef` before the tags: an empty group per trigger. */
  function InitialRefs(triggers: Option<OMap<string>>): (refs: map<string, seq<string>>)
    ensures triggers.Some? ==> refs.Keys == triggers.value.vals.Keys
    ensures forall k | k in refs :: refs[k] == []
  {
    match triggers
    case None => map[]
    case Some(t) => map id | id in t.vals :: []
  }

  /** The `[Tags]` entries in enumeration order; none when the section is missing. */
  function TagList(tags: Option<OMap<string>>): seq<TagRef>
  {
    match tags
    case None => []
    case Some(t) =>
      if t.Valid() then TagRefs(t, KeysOf(tags)) else []
  }

  /** The `[VariableNames]` nodes in enumeration order; none when the section is missing. */
  function LocalList(vars: Option<OMap<string>>): (ns: seq<Node>)
    ensures forall i | 0 <= i < |ns| :: ns[i].neighbours == []
  {
    match vars
    case None => []
    case Some(v) =>
      if v.Valid() then LocalNodes(v, KeysOf(vars)) else []
  }

  /** `disjointTrigger`, `triggerRef` and the warnings before the tag loop. */
  function InitialGroups(sec: Sections): Groups
  {
    Groups(InitialParents(sec.triggers), InitialRefs(sec.triggers), [])
  }

  /** The tag loop over the `[Tags]` entries. */
  function TagStage(sec: Sections): (r: Result<Groups, Crash>)
    ensures r.Success? ==> forall w | w in r.value.warnings :: w.TagWithoutTrigger?
  {
    TagWarningsOnly(TagList(sec.tags), InitialGroups(sec));
    TagPhase(TagList(sec.tags), InitialGroups(sec))
  }

  /** The builder the trigger loop starts from. */
  function Start(g: Groups): (b: Builder)
    requires forall w | w in g.warnings :: w.TagWithoutTrigger?
    ensures Inv(b)
  {
    Builder(Empty(), {}, [], g.warnings, g.parents)
  }

  /** The trigger loop over the `[Triggers]` keys; no iteration when the section is missing. */
  function TriggerStage(sec: Sections, g: Groups): (r: Result<Builder, Crash>)
    requires sec.Valid()
    requires forall w | w in g.warnings :: w.TagWithoutTrigger?
    ensures r.Success? ==> Inv(r.value) && Later(Start(g), r.value)
  {
    if sec.triggers.None? then
      var b := Start(g);
      assert b.edges[..|b.edges|] == b.edges && b.warnings[..|b.warnings|] == b.warnings;
      Success(b)
    else TriggerPhase(sec, g.refs, KeysOf(sec.triggers), Start(g))
  }

  /** The locals loop, the neighbour loop and the final warning. */
  function Finish(sec: Sections, b: Builder, noTriggers: bool): MapModel
    requires Inv(b)
  {
    var nodes := NeighbourPass(PutAll(b.nodes, LocalList(sec.variables)), b.edges);
    MapModel(Values(nodes), b.edges, b.warnings + (if noTriggers then [NoTriggers] else []))
  }

  /** The builder on the members it reads; `noTriggers` is `!config.Triggers`. */
  function BuildFrom(sec: Sections, noTriggers: bool): (r: Result<MapModel, Crash>)
    requires sec.Valid()
    ensures r.Success? ==> var ws := r.value.warnings;
              && (NoTriggers in ws <==> noTriggers)
              && (noTriggers ==> ws[|ws| - 1] == NoTriggers)
  {
    var g :- TagStage(sec);
    var b :- TriggerStage(sec, g);
    FinishNoTriggers(sec, b, noTriggers);
    Success(Finish(sec, b, noTriggers))
  }

  /**
    `parseMapFile` after `parseINI`: the tag loop, the trigger loop, the
    locals loop, the neighbour loop and the final "no triggers" warning.
   */
  function BuildModel(config: OMap<Entry>): (r: Result<MapModel, Crash>)
    requires ConfigValid(config)
    ensures r.Success? <==> Buildable(ReadSections(config))
    ensures r.Failure? ==> !r.error.NoTagValue?
  {
    BuildFromSucceeds(ReadSections(config), NoTriggersSection(config));
    BuildFromNoTagValue(ReadSections(config), NoTriggersSection(config));
    BuildFrom(ReadSections(config), NoTriggersSection(config))
  }

  /** `parseMapFile(data)`. */
  function ParseMapFile(data: string): (r: Result<MapModel, Crash>)
    ensures r.Success? <==> Buildable(ReadSections(ParseIni(data)))
    ensures r.Failure? ==> !r.error.NoTagValue?
    ensures r.Success? ==> forall i, j | 0 <= i < |r.value.nodes| && 0 <= j < |r.value.nodes| ::
              r.value.nodes[j].id in r.value.nodes[i].neighbours <==> r.value.nodes[i].id in r.value.nodes[j].neighbours
  {
    BuildModelNeighbours(ParseIni(data));
    BuildModel(ParseIni(data))
  }

  /** The tag loop issues only "refers to non-existent trigger" warnings. */
  lemma {:induction false} TagWarningsOnly(ts: seq<TagRef>, g: Groups)
    requires g.warnings == []
    ensures TagPhase(ts, g).Success? ==> forall w | w in TagPhase(ts, g).value.warnings :: w.TagWithoutTrigger?
  {
    if TagPhase(ts, g).Success? {
      TagPhaseGroups(ts, g);
      OrphansAreTagWarnings(ts, g.parents, g.refs.Keys);
    }
  }

  lemma {:induction false} OrphansAreTagWarnings(ts: seq<TagRef>, p: UF.Parents, keys: set<string>)
    ensures forall w | w in Orphans(ts, p, keys) :: w.TagWithoutTrigger?
    decreases |ts|
  {
    if |ts| > 0 {
      OrphansAreTagWarnings(ts[1..], p, keys);
    }
  }


  // ------------------------------------------------------------ properties of the result

  /** The ids of the result's nodes. */
  function NodeIds(m: MapModel): set<string>
  {
    set i | 0 <= i < |m.nodes| :: m.nodes[i].id
  }

  /** The node list read off a map whose nodes sit under their own ids. */
  lemma {:induction false} ValuesIds(nodes: OMap<Node>)
    requires nodes.Valid()
    requires forall k | k in nodes.vals :: nodes.vals[k].id == k
    ensures forall i | 0 <= i < |Values(nodes)| :: Values(nodes)[i] == nodes.vals[Values(nodes)[i].id]
    ensures (set i | 0 <= i < |Values(nodes)| :: Values(nodes)[i].id) == nodes.vals.Keys
    ensures forall i, j | 0 <= i < j < |Values(nodes)| :: Values(nodes)[i].id != Values(nodes)[j].id
  {
    var vs := Values(nodes);
    assert forall i | 0 <= i < |vs| :: vs[i].id == nodes.keys[i];
    var ids := set i | 0 <= i < |vs| :: vs[i].id;
    forall k | k in nodes.vals
      ensures k in ids
    {
      var i :| 0 <= i < |nodes.keys| && nodes.keys[i] == k;
      assert vs[i].id == k;
    }
  }

  /** The neighbour loop on fresh nodes, read back as the list of node values. */
  lemma {:induction false} ListedNeighbours(m0: OMap<Node>, es: seq<Edge>)
    requires NodesFresh(m0)
    ensures var vs := Values(NeighbourPass(m0, es));
            && (forall i | 0 <= i < |vs| :: Distinct(vs[i].neighbours))
            && (forall i, x | 0 <= i < |vs| :: x in vs[i].neighbours <==> Linked(m0.vals.Keys, es, vs[i].id, x))
            && (set i | 0 <= i < |vs| :: vs[i].id) == m0.vals.Keys
            && (forall i, j | 0 <= i < j < |vs| :: vs[i].id != vs[j].id)
  {
    var r := NeighbourPass(m0, es);
    NeighbourPassEffect(m0, es);
    PassKeyed(m0, r);
    ValuesIds(r);
    var vs := Values(r);
    forall i | 0 <= i < |vs|
      ensures Distinct(vs[i].neighbours)
      ensures forall x :: x in vs[i].neighbours <==> Linked(m0.vals.Keys, es, vs[i].id, x)
    {
      var k := r.keys[i];
      assert vs[i] == r.vals[k] && k in m0.vals;
      assert m0.vals[k].neighbours == [];
    }
  }

  /** The neighbour loop over fresh nodes keeps every node as built, under its own id. */
  lemma {:induction false} PassAsBuilt(m0: OMap<Node>, es: seq<Edge>)
    requires NodesFresh(m0)
    ensures var r := NeighbourPass(m0, es);
            forall k | k in r.vals :: k in m0.vals && r.vals[k].id == k && AsBuilt(r.vals[k], m0.vals[k])
  {
    NeighbourPassEffect(m0, es);
    PassKeyed(m0, NeighbourPass(m0, es));
  }

  /** The nodes of a neighbour pass over fresh nodes still sit under their own ids. */
  lemma {:induction false} PassKeyed(m0: OMap<Node>, r: OMap<Node>)
    requires NodesFresh(m0)
    requires r.vals.Keys == m0.vals.Keys
    requires forall k | k in m0.vals :: r.vals[k] == m0.vals[k].(neighbours := r.vals[k].neighbours)
    ensures forall k | k in r.vals :: r.vals[k].id == k && AsBuilt(r.vals[k], m0.vals[k])
  {
  }

  /** `a` is `n` with some list of neighbours. */
  predicate AsBuilt(a: Node, n: Node)
  {
    a == n.(neighbours := a.neighbours)
  }

  /** `n`, with some list of neighbours, is among `vs`. */
  ghost predicate Listed(vs: seq<Node>, n: Node)
  {
    exists j | 0 <= j < |vs| :: AsBuilt(vs[j], n)
  }

  /** The neighbour loop on fresh nodes changes only neighbours: each node appears once in the listed values. */
  lemma {:induction false} ListedNodes(m0: OMap<Node>, es: seq<Edge>)
    requires NodesFresh(m0)
    ensures var vs := Values(NeighbourPass(m0, es));
            && (forall j | 0 <= j < |vs| :: vs[j].id in m0.vals && AsBuilt(vs[j], m0.vals[vs[j].id]))
            && (forall k | k in m0.vals :: Listed(vs, m0.vals[k]))
  {
    var r := NeighbourPass(m0, es);
    PassAsBuilt(m0, es);
    var vs := Values(r);
    forall j | 0 <= j < |vs|
      ensures vs[j].id in m0.vals && AsBuilt(vs[j], m0.vals[vs[j].id])
    {
      assert vs[j] == r.vals[r.keys[j]];
    }
    forall k | k in m0.vals
      ensures Listed(vs, m0.vals[k])
    {
      var j :| 0 <= j < |r.keys| && r.keys[j] == k;
      assert vs[j] == r.vals[k];
      assert AsBuilt(vs[j], m0.vals[k]);
    }
  }

  /** `LocalList` gives one node per id. */
  lemma {:induction false} LocalListConsistent(vars: Option<OMap<string>>)
    ensures Consistent(LocalList(vars))
  {
    if vars.Some? && vars.value.Valid() {
      LocalNodesConsistent(vars.value, KeysOf(vars));
    }
  }

  /** The result's node ids: the trigger nodes' and the locals'. */
  lemma {:induction false} FinishIds(sec: Sections, b: Builder, noTriggers: bool)
    requires Inv(b)
    ensures NodeIds(Finish(sec, b, noTriggers)) == b.nodes.vals.Keys + Ids(LocalList(sec.variables))
  {
    var ls := LocalList(sec.variables);
    var m0 := PutAll(b.nodes, ls);
    PutAllKeys(b.nodes, ls);
    ListedIds(m0, b.edges);
    assert Finish(sec, b, noTriggers).nodes == Values(NeighbourPass(m0, b.edges));
    assert m0.vals.Keys == b.nodes.vals.Keys + Ids(ls);
  }

  /** The neighbour loop on fresh nodes lists exactly the nodes' ids. */
  lemma {:induction false} ListedIds(m0: OMap<Node>, es: seq<Edge>)
    requires NodesFresh(m0)
    ensures var vs := Values(NeighbourPass(m0, es));
            (set i | 0 <= i < |vs| :: vs[i].id) == m0.vals.Keys
  {
    var r := NeighbourPass(m0, es);
    PassAsBuilt(m0, es);
    ValuesIds(r);
  }

  /** Nodes written over fresh nodes, then connected: each written node is listed, as built. */
  lemma {:induction false} WrittenListed(nodes: OMap<Node>, ls: seq<Node>, es: seq<Edge>)
    requires NodesFresh(nodes)
    requires forall i | 0 <= i < |ls| :: ls[i].neighbours == []
    requires Consistent(ls)
    ensures var vs := Values(NeighbourPass(PutAll(nodes, ls), es));
            forall i | 0 <= i < |ls| :: Listed(vs, ls[i])
  {
    var m0 := PutAll(nodes, ls);
    PutAllWritten(nodes, ls);
    ListedNodes(m0, es);
    var vs := Values(NeighbourPass(m0, es));
    forall i | 0 <= i < |ls|
      ensures Listed(vs, ls[i])
    {
      assert m0.vals[ls[i].id] == ls[i];
    }
  }

  /** Each node of `vs` whose id is not in `over` is a node of `nodes`, as built. */
  ghost predicate KeptAsBuilt(vs: seq<Node>, nodes: OMap<Node>, over: set<string>)
  {
    forall j | 0 <= j < |vs| && vs[j].id !in over :: vs[j].id in nodes.vals && AsBuilt(vs[j], nodes.vals[vs[j].id])
  }

  /** Fresh nodes that no written node replaced are listed as they were. */
  lemma {:induction false} KeptListed(nodes: OMap<Node>, ls: seq<Node>, es: seq<Edge>)
    requires NodesFresh(nodes)
    requires forall i | 0 <= i < |ls| :: ls[i].neighbours == []
    ensures var vs := Values(NeighbourPass(PutAll(nodes, ls), es));
            KeptAsBuilt(vs, nodes, Ids(ls))
  {
    var m0 := PutAll(nodes, ls);
    PutAllKeys(nodes, ls);
    PutAllOthers(nodes, ls);
    ListedNodes(m0, es);
  }

  /** Every local is a node of the result, as built. */
  lemma {:induction false} FinishLocals(sec: Sections, b: Builder, noTriggers: bool)
    requires Inv(b)
    ensures var m := Finish(sec, b, noTriggers);
            var ls := LocalList(sec.variables);
            forall i | 0 <= i < |ls| :: Listed(m.nodes, ls[i])
  {
    LocalListConsistent(sec.variables);
    WrittenListed(b.nodes, LocalList(sec.variables), b.edges);
  }

  /** A node of the result that no local replaced is the trigger node as built. */
  lemma {:induction false} FinishTriggers(sec: Sections, b: Builder, noTriggers: bool)
    requires Inv(b)
    ensures var m := Finish(sec, b, noTriggers);
            KeptAsBuilt(m.nodes, b.nodes, Ids(LocalList(sec.variables)))
  {
    KeptListed(b.nodes, LocalList(sec.variables), b.edges);
  }

  /**
    In the result a node's neighbours are exactly the nodes that an edge
    joins it to, each listed once, and no two nodes share an id.
   */
  lemma {:induction false} FinishNeighbours(sec: Sections, b: Builder, noTriggers: bool)
    requires Inv(b)
    ensures var m := Finish(sec, b, noTriggers);
            && (forall i | 0 <= i < |m.nodes| :: Distinct(m.nodes[i].neighbours))
            && (forall i, x | 0 <= i < |m.nodes| ::
                  x in m.nodes[i].neighbours <==> Linked(NodeIds(m), m.edges, m.nodes[i].id, x))
            && (forall i, j | 0 <= i < j < |m.nodes| :: m.nodes[i].id != m.nodes[j].id)
  {
    ListedNeighbours(PutAll(b.nodes, LocalList(sec.variables)), b.edges);
  }

  lemma {:induction false} JoinsSymmetric(keys: set<string>, e: Edge, k: string, x: string)
    ensures Joins(keys, e, k, x) <==> Joins(keys, e, x, k)
    ensures Joins(keys, e, k, x) ==> k in keys && x in keys
  {
  }

  /**
    The neighbour relation of the result is symmetric and only names nodes:
    a neighbour lost to an edge with a missing end is never recorded.
   */
  lemma {:induction false} FinishNeighboursSymmetric(sec: Sections, b: Builder, noTriggers: bool)
    requires Inv(b)
    ensures var m := Finish(sec, b, noTriggers);
            forall i, j | 0 <= i < |m.nodes| && 0 <= j < |m.nodes| ::
              m.nodes[j].id in m.nodes[i].neighbours <==> m.nodes[i].id in m.nodes[j].neighbours
    ensures var m := Finish(sec, b, noTriggers);
            forall i, x | 0 <= i < |m.nodes| && x in m.nodes[i].neighbours :: x in NodeIds(m)
  {
    var m := Finish(sec, b, noTriggers);
    FinishNeighbours(sec, b, noTriggers);
    forall i, j | 0 <= i < |m.nodes| && 0 <= j < |m.nodes|
      ensures m.nodes[j].id in m.nodes[i].neighbours <==> m.nodes[i].id in m.nodes[j].neighbours
    {
      var a, c := m.nodes[i].id, m.nodes[j].id;
      forall e | e in m.edges
        ensures Joins(NodeIds(m), e, a, c) <==> Joins(NodeIds(m), e, c, a)
      {
        JoinsSymmetric(NodeIds(m), e, a, c);
      }
      if Linked(NodeIds(m), m.edges, a, c) {
        var t :| 0 <= t < |m.edges| && Joins(NodeIds(m), m.edges[t], a, c);
        assert Joins(NodeIds(m), m.edges[t], c, a);
      }
      if Linked(NodeIds(m), m.edges, c, a) {
        var t :| 0 <= t < |m.edges| && Joins(NodeIds(m), m.edges[t], c, a);
        assert Joins(NodeIds(m), m.edges[t], a, c);
      }
    }
    forall i, x | 0 <= i < |m.nodes| && x in m.nodes[i].neighbours
      ensures x in NodeIds(m)
    {
      var t :| 0 <= t < |m.edges| && Joins(NodeIds(m), m.edges[t], m.nodes[i].id, x);
      JoinsSymmetric(NodeIds(m), m.edges[t], m.nodes[i].id, x);
    }
  }


  // ------------------------------------------------------------ properties of the whole builder

  /** `x` is the tag of some entry of `ts`. */
  ghost predicate TagOf(ts: seq<TagRef>, x: string)
  {
    exists i | 0 <= i < |ts| :: ts[i].tag == x
  }

  /** The members of a group are tags of the list it was collected from. */
  lemma {:induction false} GroupOfTags(ts: seq<TagRef>, p: UF.Parents, k: string)
    ensures forall x | x in GroupOf(ts, p, k) :: TagOf(ts, x)
    decreases |ts|
  {
    if |ts| > 0 {
      GroupOfTags(ts[1..], p, k);
      assert GroupOf(ts, p, k) == MemberOf(p, k, ts[0]) + GroupOf(ts[1..], p, k);
      forall x | x in GroupOf(ts[1..], p, k)
        ensures TagOf(ts, x)
      {
        var i :| 0 <= i < |ts[1..]| && ts[1..][i].tag == x;
        assert ts[i + 1].tag == x;
      }
    }
  }

  /** The tags of `TagList` are keys of `[Tags]`. */
  lemma {:induction false} TagListKnown(tags: Option<OMap<string>>)
    ensures forall x | TagOf(TagList(tags), x) :: tags.Some? && x in tags.value.vals
  {
    if tags.Some? && tags.value.Valid() {
      var ids := KeysOf(tags);
      assert TagList(tags) == TagRefs(tags.value, ids);
      assert forall i | 0 <= i < |ids| :: ids[i] in tags.value.vals;
    }
  }

  /** After the tag loop every group member is a key of `[Tags]`. */
  lemma {:induction false} TagStageKnown(sec: Sections)
    requires TagStage(sec).Success?
    ensures TagsKnown(sec, TagStage(sec).value.refs)
    ensures GroupsAfter(TagList(sec.tags), InitialGroups(sec), TagStage(sec).value)
  {
    var ts, g0 := TagList(sec.tags), InitialGroups(sec);
    var g := TagStage(sec).value;
    TagPhaseGroups(ts, g0);
    TagListKnown(sec.tags);
    forall k, i | k in g.refs && 0 <= i < |g.refs[k]|
      ensures sec.tags.Some? && g.refs[k][i] in sec.tags.value.vals
    {
      assert g.refs[k] == GroupOf(ts, g0.parents, k);
      GroupOfTags(ts, g0.parents, k);
      assert g.refs[k][i] in GroupOf(ts, g0.parents, k);
    }
  }

  /**
    Trigger `id`, read from the configuration: its chain from the initial
    links ends at a trigger, and when that trigger's group is non-empty the
    value of `id` has a link field.
   */
  ghost predicate TriggerBuildable(sec: Sections, id: string)
    requires sec.triggers.Some? && id in sec.triggers.value.vals
  {
    var p0 := InitialParents(sec.triggers);
    var k := RepKey(p0, Str(id));
    && k.Some? && k.value in sec.triggers.value.vals
    && (|GroupOf(TagList(sec.tags), p0, k.value)| > 0 ==> |Split(sec.triggers.value.vals[id], ',')| >= 2)
  }

  /** Every tag's trigger chain ends. */
  ghost predicate TagsBuildable(sec: Sections)
  {
    var ts := TagList(sec.tags);
    forall i | 0 <= i < |ts| :: RepKey(InitialParents(sec.triggers), ts[i].target).Some?
  }

  /** The configuration the builder gets through without throwing. */
  ghost predicate Buildable(sec: Sections)
  {
    && TagsBuildable(sec)
    && TriggersBuildable(sec)
  }

  /** A trigger is `TriggerOk` after the tag loop exactly when it is `TriggerBuildable`. */
  lemma {:induction false} TriggerOkBuildable(sec: Sections, g: Groups, id: string)
    requires sec.triggers.Some? && id in sec.triggers.value.vals
    requires GroupsAfter(TagList(sec.tags), InitialGroups(sec), g)
    ensures TriggerOk(sec, g.refs, g.parents, id) <==> TriggerBuildable(sec, id)
  {
    var p0 := InitialParents(sec.triggers);
    SameRepsSameKey(g.parents, p0, Str(id));
    var k := RepKey(p0, Str(id));
    if k.Some? && k.value in sec.triggers.value.vals {
      assert g.refs[k.value] == [] + GroupOf(TagList(sec.tags), p0, k.value);
    }
  }

  /** If every trigger is `TriggerBuildable`, every key of `[Triggers]` is `TriggerOk` after the tag loop. */
  lemma {:induction false} TriggersOkIf(sec: Sections, g: Groups)
    requires sec.triggers.Some? && sec.triggers.value.Valid()
    requires GroupsAfter(TagList(sec.tags), InitialGroups(sec), g)
    requires forall id | id in sec.triggers.value.vals :: TriggerBuildable(sec, id)
    requires TagsKnown(sec, g.refs) && forall w | w in g.warnings :: w.TagWithoutTrigger?
    ensures TriggerPhase(sec, g.refs, KeysOf(sec.triggers), Start(g)).Success?
  {
    var ids := KeysOf(sec.triggers);
    forall i | 0 <= i < |ids|
      ensures TriggerOk(sec, g.refs, g.parents, ids[i])
    {
      TriggerOkBuildable(sec, g, ids[i]);
    }
    TriggerPhaseSucceeds(sec, g.refs, ids, Start(g));
  }

  /** If every key of `[Triggers]` is `TriggerOk` after the tag loop, every trigger is `TriggerBuildable`. */
  lemma {:induction false} TriggersOkOnlyIf(sec: Sections, g: Groups)
    requires sec.triggers.Some? && sec.triggers.value.Valid()
    requires GroupsAfter(TagList(sec.tags), InitialGroups(sec), g)
    requires forall i | 0 <= i < |KeysOf(sec.triggers)| :: TriggerOk(sec, g.refs, g.parents, KeysOf(sec.triggers)[i])
    ensures forall id | id in sec.triggers.value.vals :: TriggerBuildable(sec, id)
  {
    var ids := KeysOf(sec.triggers);
    forall id | id in sec.triggers.value.vals
      ensures TriggerBuildable(sec, id)
    {
      OkListed(sec, g, ids, id);
      TriggerOkBuildable(sec, g, id);
    }
  }

  /** A key listed among `ids`, all of which are `TriggerOk`, is `TriggerOk`. */
  lemma {:induction false} OkListed(sec: Sections, g: Groups, ids: seq<string>, id: string)
    requires sec.triggers.Some? && id in sec.triggers.value.vals && id in ids
    requires forall i | 0 <= i < |ids| :: ids[i] in sec.triggers.value.vals
    requires forall i | 0 <= i < |ids| :: TriggerOk(sec, g.refs, g.parents, ids[i])
    ensures TriggerOk(sec, g.refs, g.parents, id)
  {
    var i :| 0 <= i < |ids| && ids[i] == id;
  }

  /** Every trigger of a present `[Triggers]` is `TriggerBuildable`. */
  ghost predicate TriggersBuildable(sec: Sections)
  {
    sec.triggers.Some? ==> forall id | id in sec.triggers.value.vals :: TriggerBuildable(sec, id)
  }

  lemma {:induction false} TriggerStageIf(sec: Sections, g: Groups)
    requires sec.Valid() && sec.triggers.Some?
    requires GroupsAfter(TagList(sec.tags), InitialGroups(sec), g) && TagsKnown(sec, g.refs)
    requires forall w | w in g.warnings :: w.TagWithoutTrigger?
    requires TriggersBuildable(sec)
    ensures TriggerStage(sec, g).Success?
  {
    TriggersOkIf(sec, g);
  }

  /** The success direction of `TriggerPhaseCrash` alone. */
  lemma {:induction false} TriggerPhaseSucceeds(sec: Sections, refs: map<string, seq<string>>, ids: seq<string>, b: Builder)
    requires sec.triggers.Some? && forall i | 0 <= i < |ids| :: ids[i] in sec.triggers.value.vals
    requires Inv(b) && TagsKnown(sec, refs)
    requires forall i | 0 <= i < |ids| :: TriggerOk(sec, refs, b.parents, ids[i])
    ensures TriggerPhase(sec, refs, ids, b).Success?
  {
    TriggerPhaseCrash(sec, refs, ids, b);
  }

  lemma {:induction false} TriggerStageOnlyIf(sec: Sections, g: Groups)
    requires sec.Valid() && sec.triggers.Some?
    requires GroupsAfter(TagList(sec.tags), InitialGroups(sec), g) && TagsKnown(sec, g.refs)
    requires forall w | w in g.warnings :: w.TagWithoutTrigger?
    requires TriggerStage(sec, g).Success?
    ensures TriggersBuildable(sec)
  {
    TriggerPhaseCrash(sec, g.refs, KeysOf(sec.triggers), Start(g));
    TriggersOkOnlyIf(sec, g);
  }

  /** After a tag loop that succeeded, the trigger loop succeeds exactly when every trigger is `TriggerBuildable`. */
  lemma {:induction false} TriggerStageSucceeds(sec: Sections, g: Groups)
    requires sec.Valid()
    requires GroupsAfter(TagList(sec.tags), InitialGroups(sec), g) && TagsKnown(sec, g.refs)
    requires forall w | w in g.warnings :: w.TagWithoutTrigger?
    ensures TriggerStage(sec, g).Success? <==> TriggersBuildable(sec)
  {
    if sec.triggers.Some? {
      if TriggersBuildable(sec) {
        TriggerStageIf(sec, g);
      }
      if TriggerStage(sec, g).Success? {
        TriggerStageOnlyIf(sec, g);
      }
    }
  }

  /** With known tags, the trigger loop never throws for a missing tag value. */
  lemma {:induction false} TriggerStageNoTagValue(sec: Sections, g: Groups)
    requires sec.Valid()
    requires TagsKnown(sec, g.refs)
    requires forall w | w in g.warnings :: w.TagWithoutTrigger?
    ensures TriggerStage(sec, g).Failure? ==> !TriggerStage(sec, g).error.NoTagValue?
  {
    if sec.triggers.Some? {
      TriggerPhaseCrash(sec, g.refs, KeysOf(sec.triggers), Start(g));
    }
  }

  /** The builder returns a model exactly when the configuration is `Buildable`. */
  lemma {:induction false} BuildFromSucceeds(sec: Sections, noTriggers: bool)
    requires sec.Valid()
    ensures BuildFrom(sec, noTriggers).Success? <==> Buildable(sec)
  {
    TagPhaseFails(TagList(sec.tags), InitialGroups(sec));
    if TagStage(sec).Success? {
      TagStageKnown(sec);
      TriggerStageSucceeds(sec, TagStage(sec).value);
    }
  }

  /**
    The builder never throws for a missing tag value: every tag it looks up
    was put into a group from `[Tags]` itself.
   */
  lemma {:induction false} BuildFromNoTagValue(sec: Sections, noTriggers: bool)
    requires sec.Valid()
    ensures BuildFrom(sec, noTriggers).Failure? ==> !BuildFrom(sec, noTriggers).error.NoTagValue?
  {
    TagPhaseFails(TagList(sec.tags), InitialGroups(sec));
    if TagStage(sec).Success? {
      var g := TagStage(sec).value;
      TagStageKnown(sec);
      TriggerStageNoTagValue(sec, g);
      if TriggerStage(sec, g).Failure? {
        assert BuildFrom(sec, noTriggers) == Failure(TriggerStage(sec, g).error);
      }
    } else {
      assert BuildFrom(sec, noTriggers) == Failure(TagStage(sec).error);
    }
  }


  /** The builder's result, when it returns one, as `Finish` of the trigger loop's builder. */
  lemma {:induction false} BuildFromParts(sec: Sections, noTriggers: bool)
    requires sec.Valid() && BuildFrom(sec, noTriggers).Success?
    ensures TagStage(sec).Success?
    ensures TriggerStage(sec, TagStage(sec).value).Success?
    ensures BuildFrom(sec, noTriggers).value == Finish(sec, TriggerStage(sec, TagStage(sec).value).value, noTriggers)
  {
  }

  /**
    The outcome for trigger `id` in the model `m`: its chain from the
    initial links ends, and it earned the "doesn't have any tags" warning
    when no tag reaches its representative, or else it is a node.
   */
  ghost predicate TriggerReported(sec: Sections, m: MapModel, id: string)
  {
    var p0 := InitialParents(sec.triggers);
    var k := RepKey(p0, Str(id));
    && k.Some?
    && (|GroupOf(TagList(sec.tags), p0, k.value)| == 0 ==> TriggerWithoutTags(id) in m.warnings)
    && (|GroupOf(TagList(sec.tags), p0, k.value)| > 0 ==> id in NodeIds(m))
  }

  lemma {:induction false} TriggerDoneReported(sec: Sections, g: Groups, b: Builder, noTriggers: bool, id: string)
    requires GroupsAfter(TagList(sec.tags), InitialGroups(sec), g)
    requires Inv(b) && TriggerDone(g.refs, g.parents, b, id)
    ensures TriggerReported(sec, Finish(sec, b, noTriggers), id)
  {
    var p0 := InitialParents(sec.triggers);
    SameRepsSameKey(g.parents, p0, Str(id));
    var k := RepKey(p0, Str(id)).value;
    assert g.refs[k] == [] + GroupOf(TagList(sec.tags), p0, k);
    FinishIds(sec, b, noTriggers);
  }

  /** Warnings that open the builder's warnings open the result's. */
  lemma {:induction false} FinishKeepsWarnings(sec: Sections, b: Builder, noTriggers: bool, ws: seq<Warning>)
    requires Inv(b) && |ws| <= |b.warnings| && b.warnings[..|ws|] == ws
    ensures var m := Finish(sec, b, noTriggers);
            |ws| <= |m.warnings| && m.warnings[..|ws|] == ws
  {
    var m := Finish(sec, b, noTriggers);
    assert m.warnings[..|ws|] == b.warnings[..|ws|];
  }

  /** The warnings of the result open with one "tag without trigger" warning per orphaned tag, in tag order. */
  lemma {:induction false} BuildFromTagWarnings(sec: Sections, noTriggers: bool)
    requires sec.Valid() && BuildFrom(sec, noTriggers).Success?
    ensures var ws := Orphans(TagList(sec.tags), InitialParents(sec.triggers), InitialRefs(sec.triggers).Keys);
            var m := BuildFrom(sec, noTriggers).value;
            |ws| <= |m.warnings| && m.warnings[..|ws|] == ws
  {
    BuildFromParts(sec, noTriggers);
    var g := TagStage(sec).value;
    var b := TriggerStage(sec, g).value;
    TagStageKnown(sec);
    assert g.warnings == Orphans(TagList(sec.tags), InitialParents(sec.triggers), InitialRefs(sec.triggers).Keys);
    FinishKeepsWarnings(sec, b, noTriggers, g.warnings);
  }

  /** What the trigger loop leaves for every key, carried to the result. */
  lemma {:induction false} TriggersReported(sec: Sections, g: Groups, b: Builder, noTriggers: bool, ids: seq<string>)
    requires sec.triggers.Some? && forall k :: k in ids <==> k in sec.triggers.value.vals
    requires GroupsAfter(TagList(sec.tags), InitialGroups(sec), g)
    requires Inv(b) && forall i | 0 <= i < |ids| :: TriggerDone(g.refs, g.parents, b, ids[i])
    ensures forall id | id in sec.triggers.value.vals :: TriggerReported(sec, Finish(sec, b, noTriggers), id)
  {
    forall id | id in sec.triggers.value.vals
      ensures TriggerReported(sec, Finish(sec, b, noTriggers), id)
    {
      var i :| 0 <= i < |ids| && ids[i] == id;
      TriggerDoneReported(sec, g, b, noTriggers, id);
    }
  }

  /** Every trigger of the result is reported as `TriggerReported` says. */
  lemma {:induction false} BuildFromTriggers(sec: Sections, noTriggers: bool)
    requires sec.Valid() && BuildFrom(sec, noTriggers).Success?
    ensures sec.triggers.Some? ==>
              forall id | id in sec.triggers.value.vals :: TriggerReported(sec, BuildFrom(sec, noTriggers).value, id)
  {
    BuildFromParts(sec, noTriggers);
    if sec.triggers.Some? {
      var g := TagStage(sec).value;
      var b := TriggerStage(sec, g).value;
      TagStageKnown(sec);
      TriggerPhaseOutcome(sec, g.refs, KeysOf(sec.triggers), Start(g));
      TriggersReported(sec, g, b, noTriggers, KeysOf(sec.triggers));
    }
  }


  /** The model gets the "no triggers" warning exactly when `[Triggers]` is missing or empty, and only at the end. */
  lemma {:induction false} BuildModelNoTriggers(config: OMap<Entry>)
    requires ConfigValid(config)
    ensures var r := BuildModel(config);
            r.Success? ==> (NoTriggers in r.value.warnings <==> NoTriggersSection(config))
    ensures var r := BuildModel(config);
            r.Success? && NoTriggersSection(config) ==> r.value.warnings[|r.value.warnings| - 1] == NoTriggers
  {
    var sec, nt := ReadSections(config), NoTriggersSection(config);
    assert BuildModel(config) == BuildFrom(sec, nt);
    if BuildFrom(sec, nt).Success? {
      BuildFromParts(sec, nt);
      FinishNoTriggers(sec, TriggerStage(sec, TagStage(sec).value).value, nt);
    }
  }

  /** The last phase adds the "no triggers" warning exactly when asked to, and at the end. */
  lemma {:induction false} FinishNoTriggers(sec: Sections, b: Builder, noTriggers: bool)
    requires Inv(b)
    ensures var ws := Finish(sec, b, noTriggers).warnings;
            && (NoTriggers in ws <==> noTriggers)
            && (noTriggers ==> |ws| > 0 && ws[|ws| - 1] == NoTriggers)
  {
    assert NoTriggers !in b.warnings;
  }

  /**
    In a model the builder returns, each node's neighbours are the nodes an
    edge joins it to, listed once each; the relation is symmetric and names
    only nodes, and no two nodes share an id.
   */
  lemma {:induction false} BuildModelNeighbours(config: OMap<Entry>)
    requires ConfigValid(config)
    ensures var r := BuildModel(config);
            r.Success? ==>
              var m := r.value;
              && (forall i | 0 <= i < |m.nodes| :: Distinct(m.nodes[i].neighbours))
              && (forall i, x | 0 <= i < |m.nodes| ::
                    x in m.nodes[i].neighbours <==> Linked(NodeIds(m), m.edges, m.nodes[i].id, x))
              && (forall i, j | 0 <= i < j < |m.nodes| :: m.nodes[i].id != m.nodes[j].id)
              && (forall i, j | 0 <= i < |m.nodes| && 0 <= j < |m.nodes| ::
                    m.nodes[j].id in m.nodes[i].neighbours <==> m.nodes[i].id in m.nodes[j].neighbours)
              && (forall i, x | 0 <= i < |m.nodes| && x in m.nodes[i].neighbours :: x in NodeIds(m))
  {
    var sec, nt := ReadSections(config), NoTriggersSection(config);
    if BuildFrom(sec, nt).Success? {
      BuildFromParts(sec, nt);
      var b := TriggerStage(sec, TagStage(sec).value).value;
      FinishNeighbours(sec, b, nt);
      FinishNeighboursSymmetric(sec, b, nt);
    }
  }

}

/**
  The `[Events]` and `[Actions]` value formats. Each is a comma-separated
  token list whose first token is a record count.

  An event record is an opcode, a flag and one parameter, or two parameters
  when the flag is 2. The event decoder ignores the count and reads records
  until the tokens run out.

  An action record is an opcode and seven parameter slots. The action decoder
  stops after the declared count.

  Some opcodes also draw an edge between the owning trigger and a trigger or
  variable; which ones is fixed by the tables `EventEdge` and `EdgeRule`.
 */
module Streams {
  import opened Wrappers
  import opened JsText

  function Min(a: int, b: int): int
  {
    if a <= b then a else b
  }

  function Max(a: int, b: int): int
  {
    if a >= b then a else b
  }

  // ------------------------------------------------------------ edges

  /** The `colorType` tag of an edge; the colour itself comes from the page theme. */
  datatype ColorType = Enable | Disable | Destroy | Force | Link

  /** An edge of the model: `arrows` is "to;from" exactly when `bothWays`. */
  datatype Edge = Edge(from: string, to: string, colorType: ColorType, dashed: bool, bothWays: bool)

  // ------------------------------------------------------------ events

  /** One event: its opcode (`None` for NaN) and its one or two parameters. */
  datatype Event = Event(opcode: Option<int>, params: seq<Val>)

  /**
    The record whose opcode is token `i`, and the index of the next record:
    the loop steps by three and by one more when the flag token is 2.
   */
  function ReadEvent(arr: seq<string>, i: nat): (r: (Event, nat))
    ensures r.1 == i + |r.0.params| + 2
    ensures |r.0.params| == 2 <==> ParseIntVal(Field(arr, i + 1)) == Some(2)
    ensures |r.0.params| == 1 <==> ParseIntVal(Field(arr, i + 1)) != Some(2)
    ensures r.0.params[0] == Field(arr, i + 2)
    ensures |r.0.params| == 2 ==> r.0.params[1] == Field(arr, i + 3)
  {
    var opcode := ParseIntVal(Field(arr, i));
    if ParseIntVal(Field(arr, i + 1)) == Some(2) then (Event(opcode, [Field(arr, i + 2), Field(arr, i + 3)]), i + 4)
    else (Event(opcode, [Field(arr, i + 2)]), i + 3)
  }

  /** The tokens from index `i` on: none once `i` is past the end. */
  function Remaining(arr: seq<string>, i: nat): nat
  {
    if i <= |arr| then |arr| - i else 0
  }

  /**
    The event loop from token `i` while `i < arr.length`: each step reads
    one record and moves past it, so `n` remaining tokens give between
    `n / 4` and `(n + 2) / 3` events.
   */
  function DecodeEvents(arr: seq<string>, i: nat): (es: seq<Event>)
    ensures 3 * |es| <= Remaining(arr, i) + 2
    ensures Remaining(arr, i) <= 4 * |es|
    ensures forall k | 0 <= k < |es| :: 1 <= |es[k].params| <= 2
    decreases Remaining(arr, i)
  {
    if i >= |arr| then []
    else
      var r := ReadEvent(arr, i);
      [r.0] + DecodeEvents(arr, r.1)
  }

  /** `parseEvents(str)`: nothing for `undefined` or "", else the records after the count. */
  function ParseEvents(str: Val): (r: seq<Event>)
    ensures !Truthy(str) ==> r == []
    ensures Truthy(str) ==> var n := |Split(str.s, ',')|; 3 * |r| <= n + 1 && n - 1 <= 4 * |r|
    ensures forall k | 0 <= k < |r| :: 1 <= |r[k].params| <= 2
  {
    if !Truthy(str) then [] else DecodeEvents(Split(str.s, ','), 1)
  }

  function FirstParam(e: Event): Val
  {
    if |e.params| > 0 then e.params[0] else Undef
  }

  /**
    The edge an event draws into its trigger: from local variable `L<p0>` for
    opcodes 36 (set) and 37 (clear), from global variable `G<p0>` for 27 (set)
    and 28 (clear).
   */
  function EventEdge(e: Event, parent: string): (r: Option<Edge>)
    ensures r.Some? <==> e.opcode in {Some(36), Some(37), Some(27), Some(28)}
    ensures r.Some? ==> r.value.to == parent && r.value.dashed && !r.value.bothWays
    ensures r.Some? ==>
              r.value.from == (if e.opcode in {Some(36), Some(37)} then "L" else "G") + ToStr(FirstParam(e))
    ensures r.Some? ==> (r.value.colorType == Enable <==> e.opcode in {Some(36), Some(27)})
    ensures r.Some? ==> (r.value.colorType == Disable <==> e.opcode in {Some(37), Some(28)})
  {
    match e.opcode
    case Some(36) => Some(Edge("L" + ToStr(FirstParam(e)), parent, Enable, true, false))
    case Some(37) => Some(Edge("L" + ToStr(FirstParam(e)), parent, Disable, true, false))
    case Some(27) => Some(Edge("G" + ToStr(FirstParam(e)), parent, Enable, true, false))
    case Some(28) => Some(Edge("G" + ToStr(FirstParam(e)), parent, Disable, true, false))
    case _ => None
  }

  /** The global variable an event registers before drawing its edge. */
  function EventGlobal(e: Event): (r: Option<Val>)
    ensures r.Some? <==> e.opcode in {Some(27), Some(28)}
    ensures r.Some? ==> EventEdge(e, "").Some? && EventEdge(e, "").value.from == "G" + ToStr(r.value)
  {
    if e.opcode == Some(27) || e.opcode == Some(28) then Some(FirstParam(e)) else None
  }

  // ------------------------------------------------------------ actions

  /** One action: its opcode (`None` for NaN) and its seven parameter slots. */
  datatype Action = Action(opcode: Option<int>, params: seq<string>)

  /** `arr[k] || ''`: a missing or empty token is the empty string. */
  function Slot(arr: seq<string>, k: nat): string
  {
    if k < |arr| then arr[k] else ""
  }

  /** The record whose opcode is token `i`: the opcode and the seven tokens after it. */
  function ReadAction(arr: seq<string>, i: nat): (a: Action)
    ensures |a.params| == 7
    ensures forall j | 0 <= j < 7 :: a.params[j] == Slot(arr, i + j + 1)
  {
    Action(ParseIntVal(Field(arr, i)), seq(7, j requires 0 <= j < 7 => Slot(arr, i + j + 1)))
  }

  /**
    The action loop from token `i`, with `left` more records allowed by the
    count: it stops when the tokens run out or the count is reached.
   */
  function DecodeActions(arr: seq<string>, i: nat, left: int): (r: seq<Action>)
    ensures |r| <= Max(left, 0)
    ensures forall k | 0 <= k < |r| :: |r[k].params| == 7
    decreases Remaining(arr, i)
  {
    if i >= |arr| || left <= 0 then []
    else [ReadAction(arr, i)] + DecodeActions(arr, i + 8, left - 1)
  }

  /** The loop runs for the declared count or until the tokens run out, eight tokens a record. */
  lemma {:induction false} DecodeActionsCount(arr: seq<string>, i: nat, left: int)
    ensures |DecodeActions(arr, i, left)| == Min(Max(left, 0), (Remaining(arr, i) + 7) / 8)
  {
    DecodeActionsRecords(arr, i, left);
    RecordsOfLength(Remaining(arr, i));
  }

  /** The number of records, the last possibly partial, in `len` tokens. */
  function Records(len: nat): nat
  {
    if len == 0 then 0 else 1 + Records(len - Min(8, len))
  }

  lemma {:induction false} RecordsOfLength(len: nat)
    ensures Records(len) == (len + 7) / 8
  {
    if len > 0 {
      RecordsOfLength(len - Min(8, len));
    }
  }

  lemma {:induction false} DecodeActionsRecords(arr: seq<string>, i: nat, left: int)
    ensures |DecodeActions(arr, i, left)| == Min(Max(left, 0), Records(Remaining(arr, i)))
    decreases Remaining(arr, i)
  {
    if i < |arr| && left > 0 {
      var d := |DecodeActions(arr, i + 8, left - 1)|;
      assert |DecodeActions(arr, i, left)| == 1 + d;
      DecodeActionsRecords(arr, i + 8, left - 1);
      assert Remaining(arr, i + 8) == Remaining(arr, i) - Min(8, Remaining(arr, i));
      assert Records(Remaining(arr, i)) == 1 + Records(Remaining(arr, i + 8));
      BoundStep(left, Records(Remaining(arr, i + 8)), d);
    }
  }

  /** One more record allowed and one more available give one more decoded. */
  lemma {:induction false} BoundStep(left: int, avail: int, d: int)
    requires left > 0
    requires d == Min(Max(left - 1, 0), avail)
    ensures 1 + d == Min(Max(left, 0), avail + 1)
  {
  }

  /** `parseActions(str)`: nothing for `undefined`, "" or a count that is NaN. */
  function ParseActions(str: Val): (r: seq<Action>)
    ensures forall k | 0 <= k < |r| :: |r[k].params| == 7
  {
    if !Truthy(str) then []
    else
      var arr := Split(str.s, ',');
      match ParseInt(arr[0])
      case None => []
      case Some(count) => DecodeActions(arr, 1, count)
  }

  /** One row of the action edge table: colour tag, dashing and target prefix. */
  datatype Rule = Rule(colorType: ColorType, dashed: bool, prefix: string)

  /**
    Opcodes 12 (destroy), 22 (force), 53 (enable) and 54 (disable) target a
    trigger; 56/57 set and clear a local variable, 28/29 a global one.
   */
  function EdgeRule(opcode: Option<int>): Option<Rule>
  {
    match opcode
    case Some(12) => Some(Rule(Destroy, false, ""))
    case Some(22) => Some(Rule(Force, false, ""))
    case Some(53) => Some(Rule(Enable, false, ""))
    case Some(54) => Some(Rule(Disable, false, ""))
    case Some(56) => Some(Rule(Enable, true, "L"))
    case Some(57) => Some(Rule(Disable, true, "L"))
    case Some(28) => Some(Rule(Enable, true, "G"))
    case Some(29) => Some(Rule(Disable, true, "G"))
    case _ => None
  }

  /** The second parameter, which names the edge's target. */
  function Target(a: Action): string
  {
    if |a.params| > 1 then a.params[1] else ""
  }

  /** The edge an action draws out of its trigger. */
  function ActionEdge(a: Action, parent: string): (r: Option<Edge>)
    ensures r.Some? <==> a.opcode in {Some(12), Some(22), Some(53), Some(54), Some(56), Some(57), Some(28), Some(29)}
    ensures r.Some? ==> r.value.from == parent && !r.value.bothWays
    ensures r.Some? ==>
              r.value.to ==
                (if a.opcode in {Some(56), Some(57)} then "L" + Target(a)
                 else if a.opcode in {Some(28), Some(29)} then "G" + Target(a)
                 else Target(a))
    ensures r.Some? ==> (r.value.dashed <==> a.opcode in {Some(56), Some(57), Some(28), Some(29)})
  {
    match EdgeRule(a.opcode)
    case None => None
    case Some(rule) => Some(Edge(parent, rule.prefix + Target(a), rule.colorType, rule.dashed, false))
  }

  /** The global variable an action registers before drawing its edge. */
  function ActionGlobal(a: Action): (r: Option<Val>)
    ensures r.Some? <==> a.opcode in {Some(28), Some(29)}
    ensures r.Some? ==> r.value == Str(Target(a)) && ActionEdge(a, "").value.to == "G" + Target(a)
  {
    match EdgeRule(a.opcode)
    case Some(rule) => if rule.prefix == "G" then Some(Str(Target(a))) else None
    case None => None
  }

  // ------------------------------------------------------------ encodings

  /** An event that some token list denotes: a number opcode and comma-free parameters. */
  predicate EventWritable(e: Event)
  {
    && e.opcode.Some?
    && 1 <= |e.params| <= 2
    && CommaFree(e.params[0])
    && (|e.params| == 2 ==> CommaFree(e.params[1]))
  }

  /** A defined string without commas: a token that survives a split on commas. */
  predicate CommaFree(v: Val)
  {
    v.Str? && ',' !in v.s
  }

  predicate EventsWritable(es: seq<Event>)
  {
    |es| == 0 || (EventWritable(es[0]) && EventsWritable(es[1..]))
  }

  /** The tokens of one event record; the flag is 2 exactly for two parameters. */
  function EncodeEvent(e: Event): seq<string>
    requires EventWritable(e)
  {
    if |e.params| == 2 then [IntToString(e.opcode.value), IntToString(2), e.params[0].s, e.params[1].s]
    else [IntToString(e.opcode.value), IntToString(0), e.params[0].s]
  }

  function EncodeEvents(es: seq<Event>): seq<string>
    requires EventsWritable(es)
  {
    if |es| == 0 then [] else EncodeEvent(es[0]) + EncodeEvents(es[1..])
  }

  predicate ActionWritable(a: Action)
  {
    && a.opcode.Some?
    && |a.params| == 7
    && forall j | 0 <= j < 7 :: ',' !in a.params[j]
  }

  predicate ActionsWritable(acts: seq<Action>)
  {
    |acts| == 0 || (ActionWritable(acts[0]) && ActionsWritable(acts[1..]))
  }

  function EncodeAction(a: Action): seq<string>
    requires ActionWritable(a)
  {
    [IntToString(a.opcode.value)] + a.params
  }

  function EncodeActions(acts: seq<Action>): seq<string>
    requires ActionsWritable(acts)
  {
    if |acts| == 0 then [] else EncodeAction(acts[0]) + EncodeActions(acts[1..])
  }

  // ------------------------------------------------------------ properties

  lemma {:induction false} IntToStringCommaFree(n: int)
    ensures ',' !in IntToString(n)
    ensures |IntToString(n)| >= 1
  {
    var s := NatToString(if n < 0 then -n else n);
    assert forall i | 0 <= i < |s| :: s[i] != ',';
  }

  /** The tokens `t` occur in `arr` starting at index `i`. */
  predicate TokensAt(arr: seq<string>, i: nat, t: seq<string>)
  {
    i + |t| <= |arr| && TokensFrom(arr, i, t, 0)
  }

  /** Tokens `t[j..]` occur in `arr` starting at index `i + j`, checked one token at a time. */
  predicate TokensFrom(arr: seq<string>, i: nat, t: seq<string>, j: nat)
    decreases |t| - j
  {
    j >= |t| || (i + j < |arr| && arr[i + j] == t[j] && TokensFrom(arr, i, t, j + 1))
  }

  lemma {:induction false} TokenAt(arr: seq<string>, i: nat, t: seq<string>, j: nat, k: nat)
    requires TokensFrom(arr, i, t, j) && j <= k < |t|
    ensures i + k < |arr| && arr[i + k] == t[k]
    decreases k - j
  {
    if j < k {
      TokenAt(arr, i, t, j + 1, k);
    }
  }

  lemma {:induction false} TokensOfPointwise(arr: seq<string>, i: nat, t: seq<string>, j: nat)
    requires i + |t| <= |arr|
    requires forall k | j <= k < |t| :: arr[i + k] == t[k]
    ensures TokensFrom(arr, i, t, j)
    decreases |t| - j
  {
    if j < |t| {
      TokensOfPointwise(arr, i, t, j + 1);
    }
  }

  lemma {:induction false} TokensAtSplit(arr: seq<string>, i: nat, a: seq<string>, b: seq<string>)
    requires TokensAt(arr, i, a + b)
    ensures TokensAt(arr, i, a) && TokensAt(arr, i + |a|, b)
  {
    forall k | 0 <= k < |a|
      ensures arr[i + k] == a[k]
    {
      TokenAt(arr, i, a + b, 0, k);
    }
    forall k | 0 <= k < |b|
      ensures arr[i + |a| + k] == b[k]
    {
      TokenAt(arr, i, a + b, 0, |a| + k);
    }
    TokensOfPointwise(arr, i, a, 0);
    TokensOfPointwise(arr, i + |a|, b, 0);
  }

  lemma {:induction false} TokensAfter(pre: seq<string>, t: seq<string>)
    ensures TokensAt(pre + t, |pre|, t)
  {
    forall k | 0 <= k < |t|
      ensures (pre + t)[|pre| + k] == t[k]
    {
    }
    TokensOfPointwise(pre + t, |pre|, t, 0);
  }

  /** The record written at index `i` is read back from there, and the loop moves just past it. */
  lemma {:induction false} ReadEncodedEvent(arr: seq<string>, i: nat, e: Event)
    requires EventWritable(e)
    requires TokensAt(arr, i, EncodeEvent(e))
    ensures ReadEvent(arr, i).0 == e && ReadEvent(arr, i).1 == i + |EncodeEvent(e)|
  {
    var t := EncodeEvent(e);
    var flag := if |e.params| == 2 then 2 else 0;
    TokenAt(arr, i, t, 0, 0);
    TokenAt(arr, i, t, 0, 1);
    TokenAt(arr, i, t, 0, 2);
    NumeralField(arr, i, e.opcode.value);
    NumeralField(arr, i + 1, flag);
    if |e.params| == 2 {
      TokenAt(arr, i, t, 0, 3);
    }
    ReadEventOf(arr, i, e);
  }

  /** A token that is the numeral of `n` parses back to `n`. */
  lemma {:induction false} NumeralField(arr: seq<string>, k: nat, n: int)
    requires k < |arr| && arr[k] == IntToString(n)
    ensures ParseIntVal(Field(arr, k)) == Some(n)
  {
    ParseIntOfNumeral(n);
  }

  /** The record read at `i` is `e` when its opcode, flag and parameter tokens say so. */
  lemma {:induction false} ReadEventOf(arr: seq<string>, i: nat, e: Event)
    requires 1 <= |e.params| <= 2
    requires ParseIntVal(Field(arr, i)) == e.opcode
    requires ParseIntVal(Field(arr, i + 1)) == Some(2) <==> |e.params| == 2
    requires Field(arr, i + 2) == e.params[0]
    requires |e.params| == 2 ==> Field(arr, i + 3) == e.params[1]
    ensures ReadEvent(arr, i).0 == e && ReadEvent(arr, i).1 == i + 2 + |e.params|
  {
    var r := ReadEvent(arr, i);
    assert r.0.params == e.params;
  }

  /** The event loop at `i` yields `es` when it reads the first of them there and the rest from where that record ends. */
  lemma {:induction false} DecodeEventsCons(arr: seq<string>, i: nat, es: seq<Event>, next: nat)
    requires |es| > 0 && i < |arr|
    requires ReadEvent(arr, i).0 == es[0] && ReadEvent(arr, i).1 == next
    requires DecodeEvents(arr, next) == es[1..]
    ensures DecodeEvents(arr, i) == es
  {
    assert DecodeEvents(arr, i) == [es[0]] + es[1..];
    assert es == [es[0]] + es[1..];
  }

  /** One step of the event loop over encoded events reads back the first one. */
  lemma {:induction false} DecodeEncodedEventStep(arr: seq<string>, i: nat, es: seq<Event>, next: nat)
    requires |es| > 0
    requires EventsWritable(es)
    requires TokensAt(arr, i, EncodeEvents(es)) && i + |EncodeEvents(es)| == |arr|
    requires next == i + |EncodeEvent(es[0])|
    ensures i < |arr|
    ensures EventsWritable(es[1..])
    ensures TokensAt(arr, next, EncodeEvents(es[1..]))
    ensures next + |EncodeEvents(es[1..])| == |arr|
    ensures ReadEvent(arr, i).0 == es[0] && ReadEvent(arr, i).1 == next
  {
    TokensAtSplit(arr, i, EncodeEvent(es[0]), EncodeEvents(es[1..]));
    ReadEncodedEvent(arr, i, es[0]);
  }

  /** Decoding from index `i` the tokens of well-formed events written there, up to the end, gives the events back. */
  lemma {:induction false} DecodeEncodedEvents(arr: seq<string>, i: nat, es: seq<Event>)
    requires EventsWritable(es)
    requires TokensAt(arr, i, EncodeEvents(es)) && i + |EncodeEvents(es)| == |arr|
    ensures DecodeEvents(arr, i) == es
    decreases |es|
  {
    if |es| > 0 {
      var next := i + |EncodeEvent(es[0])|;
      DecodeEncodedEventStep(arr, i, es, next);
      DecodeEncodedEvents(arr, next, es[1..]);
      DecodeEventsCons(arr, i, es, next);
    } else {
      assert i == |arr|;
    }
  }

  lemma {:induction false} EncodedEventsCommaFree(es: seq<Event>)
    requires EventsWritable(es)
    ensures forall i | 0 <= i < |EncodeEvents(es)| :: ',' !in EncodeEvents(es)[i]
    ensures |es| > 0 ==> |EncodeEvents(es)| > 0
    decreases |es|
  {
    if |es| > 0 {
      IntToStringCommaFree(es[0].opcode.value);
      EncodedEventsCommaFree(es[1..]);
    }
  }

  lemma {:induction false} JoinKeepsFirst(parts: seq<string>, sep: char)
    requires |parts| >= 1
    ensures |Join(parts, sep)| >= |parts[0]|
    ensures |parts| >= 2 ==> |Join(parts, sep)| >= 1
  {
  }

  /**
    A count token followed by the tokens of well-formed events, joined with
    commas, is decoded back to those events whatever the count says.
   */
  lemma {:induction false} ParseEventsRoundTrip(count: string, es: seq<Event>)
    requires ',' !in count
    requires EventsWritable(es)
    ensures ParseEvents(Str(Join([count] + EncodeEvents(es), ','))) == es
  {
    var parts := [count] + EncodeEvents(es);
    var s := Join(parts, ',');
    assert Split(s, ',') == parts by {
      EncodedEventsCommaFree(es);
      assert forall i | 0 <= i < |parts| :: ',' !in parts[i];
      SplitJoin(parts, ',');
    }
    TokensAfter([count], EncodeEvents(es));
    DecodeEncodedEvents(parts, 1, es);
    if |es| > 0 {
      assert Truthy(Str(s)) by {
        EncodedEventsCommaFree(es);
        JoinKeepsFirst(parts, ',');
      }
    } else {
      assert DecodeEvents(parts, 1) == [];
    }
  }

  /** The action written at index `i` is read back from there. */
  lemma {:induction false} ReadEncodedAction(arr: seq<string>, i: nat, a: Action)
    requires ActionWritable(a)
    requires TokensAt(arr, i, EncodeAction(a))
    ensures ReadAction(arr, i) == a
  {
    var t := EncodeAction(a);
    TokenAt(arr, i, t, 0, 0);
    ParseIntOfNumeral(a.opcode.value);
    var r := ReadAction(arr, i);
    forall j | 0 <= j < 7
      ensures r.params[j] == a.params[j]
    {
      TokenAt(arr, i, t, 0, j + 1);
    }
    assert r.params == a.params;
  }

  /** Prefixing the head to the first `n - 1` of the tail gives the first `n`. */
  lemma {:induction false} TakeCons<T>(s: seq<T>, n: int, whole: seq<T>, tail: seq<T>)
    requires |s| > 0 && n > 0
    requires whole == [s[0]] + tail
    requires tail == s[1..][..Min(Max(n - 1, 0), |s[1..]|)]
    ensures whole == s[..Min(Max(n, 0), |s|)]
  {
    var m := Min(Max(n, 0), |s|);
    assert Min(Max(n - 1, 0), |s[1..]|) == m - 1;
    assert s[..m] == [s[0]] + s[1..][..m - 1];
  }

  /**
    Decoding from index `i`, with a count `n`, the tokens of well-formed
    actions written there up to the end gives the first `n` of them.
   */
  lemma {:induction false} DecodeEncodedActions(arr: seq<string>, i: nat, acts: seq<Action>, n: int)
    requires ActionsWritable(acts)
    requires TokensAt(arr, i, EncodeActions(acts)) && i + |EncodeActions(acts)| == |arr|
    ensures DecodeActions(arr, i, n) == acts[..Min(Max(n, 0), |acts|)]
    decreases |acts|
  {
    if |acts| > 0 && n > 0 {
      DecodeEncodedActionStep(arr, i, acts);
      DecodeEncodedActions(arr, i + 8, acts[1..], n - 1);
      DecodeActionsCons(arr, i, n, acts[0]);
      TakeCons(acts, n, DecodeActions(arr, i, n), DecodeActions(arr, i + 8, n - 1));
    } else if n > 0 {
      assert i == |arr|;
    }
  }

  /** One step of the action loop over encoded actions reads back the first one. */
  lemma {:induction false} DecodeEncodedActionStep(arr: seq<string>, i: nat, acts: seq<Action>)
    requires |acts| > 0
    requires ActionsWritable(acts)
    requires TokensAt(arr, i, EncodeActions(acts)) && i + |EncodeActions(acts)| == |arr|
    ensures i < |arr|
    ensures ActionsWritable(acts[1..])
    ensures TokensAt(arr, i + 8, EncodeActions(acts[1..]))
    ensures i + 8 + |EncodeActions(acts[1..])| == |arr|
    ensures ReadAction(arr, i) == acts[0]
  {
    var head := EncodeAction(acts[0]);
    TokensAtSplit(arr, i, head, EncodeActions(acts[1..]));
    ReadEncodedAction(arr, i, acts[0]);
  }

  lemma {:induction false} DecodeActionsCons(arr: seq<string>, i: nat, n: int, a: Action)
    requires i < |arr| && n > 0 && ReadAction(arr, i) == a
    ensures DecodeActions(arr, i, n) == [a] + DecodeActions(arr, i + 8, n - 1)
  {
  }

  lemma {:induction false} EncodedActionsCommaFree(acts: seq<Action>)
    requires ActionsWritable(acts)
    ensures forall i | 0 <= i < |EncodeActions(acts)| :: ',' !in EncodeActions(acts)[i]
    decreases |acts|
  {
    if |acts| > 0 {
      IntToStringCommaFree(acts[0].opcode.value);
      EncodedActionsCommaFree(acts[1..]);
    }
  }

  /**
    The count token decides how many actions come back: a count of `n`
    ahead of the tokens of well-formed actions yields the first `n` of them
    (all of them when there are fewer, none when `n` is not positive).
   */
  lemma {:induction false} ParseActionsRoundTrip(n: int, acts: seq<Action>)
    requires ActionsWritable(acts)
    ensures ParseActions(Str(Join([IntToString(n)] + EncodeActions(acts), ','))) == acts[..Min(Max(n, 0), |acts|)]
  {
    var tokens := EncodeActions(acts);
    EncodedActionsCommaFree(acts);
    IntToStringCommaFree(n);
    ParseIntOfNumeral(n);
    ParseActionsOfParts(IntToString(n), tokens, n);
    TokensAfter([IntToString(n)], tokens);
    DecodeEncodedActions([IntToString(n)] + tokens, 1, acts, n);
  }

  /** A numeric count token ahead of comma-free tokens runs the action loop from the first token after it. */
  lemma {:induction false} ParseActionsOfParts(count: string, tokens: seq<string>, n: int)
    requires ',' !in count && count != "" && ParseInt(count) == Some(n)
    requires forall i | 0 <= i < |tokens| :: ',' !in tokens[i]
    ensures ParseActions(Str(Join([count] + tokens, ','))) == DecodeActions([count] + tokens, 1, n)
  {
    var parts := [count] + tokens;
    assert forall i | 0 <= i < |parts| :: ',' !in parts[i];
    SplitJoin(parts, ',');
    JoinKeepsFirst(parts, ',');
  }

  /** A count that is not a number yields no actions, whatever tokens follow. */
  lemma {:induction false} ParseActionsNaNCount(count: string, tokens: seq<string>)
    requires ',' !in count && ParseInt(count).None?
    requires forall i | 0 <= i < |tokens| :: ',' !in tokens[i]
    ensures ParseActions(Str(Join([count] + tokens, ','))) == []
  {
    var parts := [count] + tokens;
    assert forall i | 0 <= i < |parts| :: ',' !in parts[i];
    SplitJoin(parts, ',');
  }
}

/**
 * The SGF reader of src/sgf.js (and its older copy in src/new.js) above the
 * lexer: `compactMoves`, which gathers the properties after each `;` into one
 * node, and `sgfToJS`, which nests the variations.
 */
module SgfParser {
  import opened Wrappers
  import opened Exceptions
  import opened SgfLexer

  const TOO_FEW_ENDS := "broken thing with too few ENDs"

  type Pair = (string, string)

  /** What `compactMoves` emits: `(`, `)`, or one node as a key/value object. */
  datatype Item = Open | Close | Node(props: map<string, string>)

  // ----------------------------------------------------------- compactMoves

  /** lodash `fromPairs`: a later pair overrides an earlier one with the same key. */
  function FromPairs(pairs: seq<Pair>): (m: map<string, string>)
    decreases |pairs|
  {
    if pairs == [] then
      map[]
    else
      var last := pairs[|pairs| - 1];
      FromPairs(pairs[..|pairs| - 1])[last.0 := last.1]
  }

  /** The object has exactly the keys of the pairs. */
  lemma {:induction false} FromPairsKeys(pairs: seq<Pair>)
    ensures forall k :: k in FromPairs(pairs) <==> exists i :: 0 <= i < |pairs| && pairs[i].0 == k
    decreases |pairs|
  {
    if pairs != [] {
      var init := pairs[..|pairs| - 1];
      FromPairsKeys(init);
      assert forall i :: 0 <= i < |init| ==> init[i] == pairs[i];
    }
  }

  /** A key takes the value of its last pair. */
  lemma {:induction false} FromPairsLast(pairs: seq<Pair>, i: nat)
    requires i < |pairs| && forall j :: i < j < |pairs| ==> pairs[j].0 != pairs[i].0
    ensures pairs[i].0 in FromPairs(pairs) && FromPairs(pairs)[pairs[i].0] == pairs[i].1
    decreases |pairs|
  {
    if i < |pairs| - 1 {
      var init := pairs[..|pairs| - 1];
      assert init[i] == pairs[i];
      assert forall j :: i < j < |init| ==> init[j] == pairs[j];
      FromPairsLast(init, i);
      assert pairs[|pairs| - 1].0 != pairs[i].0;
    }
  }

  /** Emit the node being read, if there is one. */
  function Flush(compacted: seq<Item>, current: Option<seq<Pair>>): seq<Item> {
    if current.Some? then compacted + [Node(FromPairs(current.value))] else compacted
  }

  /** `compactMoves` from a point on: `compacted` so far and `current`, the pairs
      of the node being read (`None` is `null`). A property read while `current`
      is `null` is a `push` on `null`. */
  function CompactFrom(tokens: seq<Token>, compacted: seq<Item>, current: Option<seq<Pair>>): Result<seq<Item>, Thrown>
    decreases |tokens|
  {
    if tokens == [] then
      Success(compacted)
    else
      match tokens[0]
      case StartVariation => CompactFrom(tokens[1..], Flush(compacted, current) + [Open], None)
      case EndVariation => CompactFrom(tokens[1..], Flush(compacted, current) + [Close], None)
      case StartMove => CompactFrom(tokens[1..], Flush(compacted, current), Some([]))
      case Property(k, v) =>
        if current.None? then Failure(NullReceiver)
        else CompactFrom(tokens[1..], compacted, Some(current.value + [(k, v)]))
  }

  function Compact(tokens: seq<Token>): Result<seq<Item>, Thrown> {
    CompactFrom(tokens, [], None)
  }

  /** `compactMoves`: the source's loop over the tokens. */
  method CompactMoves(tokens: seq<Token>) returns (r: Result<seq<Item>, Thrown>)
    ensures r == Compact(tokens)
  {
    var compacted: seq<Item> := [];
    var current: Option<seq<Pair>> := None;
    var i := 0;
    while i < |tokens|
      invariant 0 <= i <= |tokens|
      invariant Compact(tokens) == CompactFrom(tokens[i..], compacted, current)
      decreases |tokens| - i
    {
      assert tokens[i..][1..] == tokens[i + 1..];
      match tokens[i] {
        case StartVariation =>
          if current.Some? {
            compacted := compacted + [Node(FromPairs(current.value))];
            current := None;
          }
          compacted := compacted + [Open];
        case EndVariation =>
          if current.Some? {
            compacted := compacted + [Node(FromPairs(current.value))];
            current := None;
          }
          compacted := compacted + [Close];
        case StartMove =>
          if current.Some? {
            compacted := compacted + [Node(FromPairs(current.value))];
            current := None;
          }
          current := Some([]);
        case Property(k, v) =>
          if current.None? {
            return Failure(NullReceiver);
          }
          current := Some(current.value + [(k, v)]);
      }
      i := i + 1;
    }
    return Success(compacted);
  }

  /** Property `i` belongs to a node: the last token before it that is not a
      property is a `;`. */
  ghost predicate InNode(tokens: seq<Token>, i: int) {
    i <= |tokens| && exists j :: 0 <= j < i && tokens[j] == StartMove && forall l :: j < l < i ==> tokens[l].Property?
  }

  /** Every token before `i` is a property. */
  ghost predicate OnlyProperties(tokens: seq<Token>, i: int) {
    i <= |tokens| && forall l :: 0 <= l < i ==> tokens[l].Property?
  }

  /** Past the first token, property `i + 1` of `tokens` is inside a node
      exactly when property `i` of the rest is, with `next` the node open after
      the first token. */
  lemma InNodeShift(tokens: seq<Token>, current: Option<seq<Pair>>, next: Option<seq<Pair>>, i: nat)
    requires i + 1 < |tokens| && !(tokens[0].Property? && current.None?)
    requires next.Some? <==> tokens[0] == StartMove || tokens[0].Property?
    ensures (InNode(tokens, i + 1) || (current.Some? && OnlyProperties(tokens, i + 1))) <==>
            (InNode(tokens[1..], i) || (next.Some? && OnlyProperties(tokens[1..], i)))
  {
    var t, rest := tokens[0], tokens[1..];
    if InNode(rest, i) {
      var j :| 0 <= j < i && rest[j] == StartMove && forall l :: j < l < i ==> rest[l].Property?;
      assert tokens[j + 1] == StartMove && forall l :: j + 1 < l < i + 1 ==> tokens[l].Property?;
    }
    if next.Some? && OnlyProperties(rest, i) {
      if t == StartMove {
        assert forall l :: 0 < l < i + 1 ==> tokens[l].Property?;
      } else {
        assert forall l :: 0 <= l < i + 1 ==> tokens[l].Property?;
      }
    }
    if InNode(tokens, i + 1) {
      var j :| 0 <= j < i + 1 && tokens[j] == StartMove && forall l :: j < l < i + 1 ==> tokens[l].Property?;
      if j > 0 {
        assert rest[j - 1] == StartMove && forall l :: j - 1 < l < i ==> rest[l].Property?;
      } else {
        assert OnlyProperties(rest, i);
      }
    }
    if current.Some? && OnlyProperties(tokens, i + 1) {
      assert OnlyProperties(rest, i);
    }
  }

  lemma {:induction false} CompactFromSucceedsIff(tokens: seq<Token>, compacted: seq<Item>, current: Option<seq<Pair>>)
    ensures CompactFrom(tokens, compacted, current).Success? <==>
      forall i :: 0 <= i < |tokens| && tokens[i].Property? ==>
        InNode(tokens, i) || (current.Some? && OnlyProperties(tokens, i))
    ensures CompactFrom(tokens, compacted, current).Failure? ==>
      CompactFrom(tokens, compacted, current).error == NullReceiver
    decreases |tokens|
  {
    if tokens != [] {
      var t, rest := tokens[0], tokens[1..];
      var next := match t
        case StartVariation => None
        case EndVariation => None
        case StartMove => Some([])
        case Property(k, v) => if current.None? then None else Some(current.value + [(k, v)]);
      var acc := match t
        case StartVariation => Flush(compacted, current) + [Open]
        case EndVariation => Flush(compacted, current) + [Close]
        case StartMove => Flush(compacted, current)
        case Property(_, _) => compacted;
      CompactFromSucceedsIff(rest, acc, next);
      if t.Property? && current.None? {
        assert !InNode(tokens, 0) && !(current.Some? && OnlyProperties(tokens, 0));
      } else {
        assert CompactFrom(tokens, compacted, current) == CompactFrom(rest, acc, next);
        // Property i + 1 of `tokens` is property i of `rest`.
        forall i | 0 <= i < |rest|
          ensures (InNode(tokens, i + 1) || (current.Some? && OnlyProperties(tokens, i + 1))) <==>
                  (InNode(rest, i) || (next.Some? && OnlyProperties(rest, i)))
        {
          InNodeShift(tokens, current, next, i);
        }
        if t.Property? {
          assert current.Some? && OnlyProperties(tokens, 0);
        }
      }
    }
  }

  /** `compactMoves` fails exactly when some property is not inside a node (it
      comes before every `;`, or directly after a `(` or `)`), and the failure is
      the TypeError of a `push` on `null`. */
  lemma CompactSucceedsIff(tokens: seq<Token>)
    ensures Compact(tokens).Success? <==>
      forall i :: 0 <= i < |tokens| && tokens[i].Property? ==> InNode(tokens, i)
    ensures Compact(tokens).Failure? ==> Compact(tokens).error == NullReceiver
  {
    CompactFromSucceedsIff(tokens, [], None);
  }

  /** A token stream written item by item, each node as its list of pairs. */
  datatype Written = WOpen | WClose | WNode(pairs: seq<Pair>)

  function PropertyTokens(pairs: seq<Pair>): seq<Token> {
    if pairs == [] then [] else [Property(pairs[0].0, pairs[0].1)] + PropertyTokens(pairs[1..])
  }

  /** The tokens of a written stream: `(`, `)`, or `;` followed by the node's properties. */
  function TokensOf(ws: seq<Written>): seq<Token> {
    if ws == [] then []
    else
      match ws[0]
      case WOpen => [StartVariation] + TokensOf(ws[1..])
      case WClose => [EndVariation] + TokensOf(ws[1..])
      case WNode(pairs) => [StartMove] + PropertyTokens(pairs) + TokensOf(ws[1..])
  }

  function ItemOf(w: Written): Item {
    match w
    case WOpen => Open
    case WClose => Close
    case WNode(pairs) => Node(FromPairs(pairs))
  }

  /** The items a written stream stands for: each node's pairs gathered by `fromPairs`. */
  function ItemsOf(ws: seq<Written>): (items: seq<Item>)
    ensures |items| == |ws|
  {
    if ws == [] then [] else [ItemOf(ws[0])] + ItemsOf(ws[1..])
  }

  /** The stream without its last element when that is a node. */
  function DropTrailingNode(ws: seq<Written>): (r: seq<Written>)
    ensures r == ws || (ws != [] && ws[|ws| - 1].WNode? && r == ws[..|ws| - 1])
  {
    if ws != [] && ws[|ws| - 1].WNode? then ws[..|ws| - 1] else ws
  }

  lemma {:induction false} CompactProperties(pairs: seq<Pair>, rest: seq<Token>, compacted: seq<Item>, current: seq<Pair>)
    ensures CompactFrom(PropertyTokens(pairs) + rest, compacted, Some(current)) ==
            CompactFrom(rest, compacted, Some(current + pairs))
    decreases |pairs|
  {
    if pairs == [] {
      assert PropertyTokens(pairs) + rest == rest;
      assert current + pairs == current;
    } else {
      var tokens := PropertyTokens(pairs) + rest;
      assert tokens[0] == Property(pairs[0].0, pairs[0].1);
      assert tokens[1..] == PropertyTokens(pairs[1..]) + rest;
      CompactProperties(pairs[1..], rest, compacted, current + [pairs[0]]);
      assert current + [pairs[0]] + pairs[1..] == current + pairs;
    }
  }

  /** Dropping a trailing node commutes with taking the first element off. */
  lemma DropTrailingNodeCons(ws: seq<Written>)
    requires |ws| >= 2
    ensures ItemsOf(DropTrailingNode(ws)) == [ItemOf(ws[0])] + ItemsOf(DropTrailingNode(ws[1..]))
  {
    var rest := ws[1..];
    assert ws[|ws| - 1] == rest[|rest| - 1];
    if rest[|rest| - 1].WNode? {
      assert ws[..|ws| - 1] == [ws[0]] + rest[..|rest| - 1];
      assert ws[..|ws| - 1][1..] == rest[..|rest| - 1];
    }
  }

  /** The first step of `compactMoves` over a written stream. */
  lemma CompactFirstWritten(ws: seq<Written>, compacted: seq<Item>, current: Option<seq<Pair>>)
    requires ws != []
    ensures CompactFrom(TokensOf(ws), compacted, current) ==
      if ws[0].WNode? then CompactFrom(TokensOf(ws[1..]), Flush(compacted, current), Some(ws[0].pairs))
      else CompactFrom(TokensOf(ws[1..]), Flush(compacted, current) + [ItemOf(ws[0])], None)
  {
    var tokens := TokensOf(ws);
    match ws[0]
    case WOpen =>
      assert tokens[0] == StartVariation && tokens[1..] == TokensOf(ws[1..]);
    case WClose =>
      assert tokens[0] == EndVariation && tokens[1..] == TokensOf(ws[1..]);
    case WNode(pairs) =>
      assert tokens[0] == StartMove && tokens[1..] == PropertyTokens(pairs) + TokensOf(ws[1..]);
      CompactProperties(pairs, TokensOf(ws[1..]), Flush(compacted, current), []);
      assert [] + pairs == pairs;
  }

  lemma {:induction false} CompactFromWritten(ws: seq<Written>, compacted: seq<Item>, current: Option<seq<Pair>>)
    ensures CompactFrom(TokensOf(ws), compacted, current) ==
      Success(if ws == [] then compacted else Flush(compacted, current) + ItemsOf(DropTrailingNode(ws)))
    decreases |ws|
  {
    if ws != [] {
      var w, rest := ws[0], ws[1..];
      var f := Flush(compacted, current);
      CompactFirstWritten(ws, compacted, current);
      if w.WNode? {
        CompactFromWritten(rest, f, Some(w.pairs));
      } else {
        CompactFromWritten(rest, f + [ItemOf(w)], None);
      }
      if rest == [] {
        if w.WNode? {
          assert DropTrailingNode(ws) == [];
          assert f + [] == f;
        } else {
          assert DropTrailingNode(ws) == ws;
          assert ItemsOf(ws) == [ItemOf(w)] + ItemsOf(rest) == [ItemOf(w)];
        }
      } else {
        DropTrailingNodeCons(ws);
        assert (f + [ItemOf(w)]) + ItemsOf(DropTrailingNode(rest)) == f + ([ItemOf(w)] + ItemsOf(DropTrailingNode(rest)));
      }
    }
  }

  /** `compactMoves` on the tokens of a written stream gives one node per `;`
      with its pairs gathered by `fromPairs`, except that a node at the very end
      is never emitted: only a following `(` or `)` flushes it. */
  lemma CompactWritten(ws: seq<Written>)
    ensures Compact(TokensOf(ws)) == Success(ItemsOf(DropTrailingNode(ws)))
  {
    CompactFromWritten(ws, [], None);
    assert [] + ItemsOf(DropTrailingNode(ws)) == ItemsOf(DropTrailingNode(ws));
  }

  // ---------------------------------------------------------------- sgfToJS

  /** One entry of a variation: a node, or the variations that branch off at
      this point (a JavaScript array of arrays). */
  datatype Entry = NodeEntry(props: map<string, string>) | Branches(variations: seq<Variation>)

  /** A variation: the entries of one JavaScript array. */
  datatype Variation = Variation(entries: seq<Entry>)

  /** `mainLine`: not yet seen, the first variation still open, or finished. */
  datatype MainLine = Unset | Opened | Finished(line: seq<Entry>)

  /** A closed variation joins its parent: into the parent's trailing list of
      branches, or as a new list when the parent does not end in one. */
  function Attach(parent: seq<Entry>, v: seq<Entry>): (r: seq<Entry>)
    ensures |r| > 0 && r[|r| - 1].Branches?
    ensures parent != [] && parent[|parent| - 1].Branches? ==>
      r == parent[..|parent| - 1] + [Branches(parent[|parent| - 1].variations + [Variation(v)])]
    ensures parent == [] || !parent[|parent| - 1].Branches? ==> r == parent + [Branches([Variation(v)])]
  {
    if parent != [] && parent[|parent| - 1].Branches? then
      parent[..|parent| - 1] + [Branches(parent[|parent| - 1].variations + [Variation(v)])]
    else
      parent + [Branches([Variation(v)])]
  }

  /** One turn of the loop of `sgfToJS`: the stack of open variations
      (innermost last) and `mainLine` after `item`. An extra `)` pops nothing; a
      node with no open variation is a `push` on `undefined`. */
  function Advance(item: Item, stack: seq<seq<Entry>>, main: MainLine): Result<(seq<seq<Entry>>, MainLine), Thrown> {
    match item
    case Open =>
      Success((stack + [[]], if main.Unset? then Opened else main))
    case Close =>
      if stack == [] then
        Success((stack, main))
      else
        var top, below := stack[|stack| - 1], stack[..|stack| - 1];
        if below == [] then
          Success(([], if main.Opened? then Finished(top) else main))
        else
          Success((below[..|below| - 1] + [Attach(below[|below| - 1], top)], main))
    case Node(props) =>
      if stack == [] then Failure(NullReceiver)
      else Success((stack[..|stack| - 1] + [stack[|stack| - 1] + [NodeEntry(props)]], main))
  }

  /** The loop of `sgfToJS` from a point on; variations still open at the end
      are an error. */
  function AssembleFrom(copy: Copy, items: seq<Item>, stack: seq<seq<Entry>>, main: MainLine): Result<Option<seq<Entry>>, Thrown>
    decreases |items|
  {
    if items == [] then
      if stack != [] then Failure(Raise(copy, TOO_FEW_ENDS))
      else if main.Finished? then Success(Some(main.line))
      else Success(None)
    else
      var next := Advance(items[0], stack, main);
      if next.Failure? then Failure(next.error)
      else AssembleFrom(copy, items[1..], next.value.0, next.value.1)
  }

  function Assemble(copy: Copy, items: seq<Item>): Result<Option<seq<Entry>>, Thrown> {
    AssembleFrom(copy, items, [], Unset)
  }

  // ------------------------------------------------------ depth and errors

  /** How many variations are open after `item`, from `d` open before it: a `)`
      with none open changes nothing. */
  function DepthStep(d: nat, item: Item): nat {
    match item
    case Open => d + 1
    case Close => if d == 0 then 0 else d - 1
    case Node(_) => d
  }

  /** How many variations are open after `items`, from `d` open before them. */
  function Depth(d: nat, items: seq<Item>): nat
    decreases |items|
  {
    if items == [] then d else Depth(DepthStep(d, items[0]), items[1..])
  }

  /** Some node comes at a point where no variation is open. */
  ghost predicate StrayNode(items: seq<Item>, d: nat) {
    exists i :: 0 <= i < |items| && items[i].Node? && Depth(d, items[..i]) == 0
  }

  lemma StrayNodeCons(items: seq<Item>, d: nat)
    requires items != []
    ensures StrayNode(items, d) <==>
      (items[0].Node? && d == 0) || StrayNode(items[1..], DepthStep(d, items[0]))
  {
    var rest := items[1..];
    var d' := DepthStep(d, items[0]);
    forall i | 0 <= i < |rest|
      ensures Depth(d, items[..i + 1]) == Depth(d', rest[..i])
    {
      assert items[..i + 1][0] == items[0] && items[..i + 1][1..] == rest[..i];
    }
    if StrayNode(items, d) {
      var i :| 0 <= i < |items| && items[i].Node? && Depth(d, items[..i]) == 0;
      if i > 0 {
        assert rest[i - 1].Node? && Depth(d', rest[..i - 1]) == 0;
      } else {
        assert items[..0] == [];
      }
    }
    if StrayNode(rest, d') {
      var i :| 0 <= i < |rest| && rest[i].Node? && Depth(d', rest[..i]) == 0;
      assert items[i + 1].Node? && Depth(d, items[..i + 1]) == 0;
    }
    if items[0].Node? && d == 0 {
      assert items[..0] == [];
      assert Depth(d, items[..0]) == 0;
    }
  }

  /** A turn fails only on a node with nothing open, and leaves as many
      variations open as `DepthStep` counts. */
  lemma AdvanceDepth(item: Item, stack: seq<seq<Entry>>, main: MainLine)
    ensures Advance(item, stack, main).Failure? <==> item.Node? && stack == []
    ensures Advance(item, stack, main).Failure? ==> Advance(item, stack, main).error == NullReceiver
    ensures Advance(item, stack, main).Success? ==> |Advance(item, stack, main).value.0| == DepthStep(|stack|, item)
  {
  }

  /** A turn keeps `mainLine` in step with the stack, and sets it only at a `(`. */
  lemma AdvanceMain(item: Item, stack: seq<seq<Entry>>, main: MainLine)
    requires MainLineAgrees(stack, main)
    ensures Advance(item, stack, main).Success? ==>
      var next := Advance(item, stack, main).value;
      MainLineAgrees(next.0, next.1) && (next.1.Unset? <==> main.Unset? && item != Open)
  {
  }

  lemma {:induction false} AssembleFromOutcome(copy: Copy, items: seq<Item>, stack: seq<seq<Entry>>, main: MainLine)
    ensures AssembleFrom(copy, items, stack, main).Failure? <==>
      StrayNode(items, |stack|) || Depth(|stack|, items) != 0
    ensures StrayNode(items, |stack|) ==> AssembleFrom(copy, items, stack, main) == Failure(NullReceiver)
    ensures !StrayNode(items, |stack|) && Depth(|stack|, items) != 0 ==>
      AssembleFrom(copy, items, stack, main) == Failure(Raise(copy, TOO_FEW_ENDS))
    decreases |items|
  {
    if items == [] {
      assert !StrayNode(items, |stack|);
    } else {
      StrayNodeCons(items, |stack|);
      AdvanceDepth(items[0], stack, main);
      var next := Advance(items[0], stack, main);
      if next.Success? {
        AssembleFromOutcome(copy, items[1..], next.value.0, next.value.1);
      }
    }
  }

  /** `sgfToJS` throws exactly when a node comes with no variation open (a
      `push` on `undefined`) or when variations are still open at the end
      (`broken thing with too few ENDs`); an extra `)` is no error. */
  lemma AssembleOutcome(copy: Copy, items: seq<Item>)
    ensures Assemble(copy, items).Failure? <==> StrayNode(items, 0) || Depth(0, items) != 0
    ensures StrayNode(items, 0) ==> Assemble(copy, items) == Failure(NullReceiver)
    ensures !StrayNode(items, 0) && Depth(0, items) != 0 ==> Assemble(copy, items) == Failure(Raise(copy, TOO_FEW_ENDS))
  {
    AssembleFromOutcome(copy, items, [], Unset);
  }

  /** `mainLine` is still `null` exactly when no variation has been opened; while
      it is open it is on the stack. */
  ghost predicate MainLineAgrees(stack: seq<seq<Entry>>, main: MainLine) {
    (main.Unset? ==> stack == []) && (main.Opened? ==> stack != [])
  }

  lemma {:induction false} AssembleFromNull(copy: Copy, items: seq<Item>, stack: seq<seq<Entry>>, main: MainLine)
    requires MainLineAgrees(stack, main)
    ensures AssembleFrom(copy, items, stack, main).Success? ==>
      (AssembleFrom(copy, items, stack, main).value.None? <==> main.Unset? && Open !in items)
    decreases |items|
  {
    if items != [] {
      assert Open in items <==> items[0] == Open || Open in items[1..];
      AdvanceMain(items[0], stack, main);
      var next := Advance(items[0], stack, main);
      if next.Success? {
        AssembleFromNull(copy, items[1..], next.value.0, next.value.1);
      }
    }
  }

  /** `sgfToJS` returns `null` exactly when the text opens no variation. */
  lemma AssembleNull(copy: Copy, items: seq<Item>)
    ensures Assemble(copy, items).Success? ==> (Assemble(copy, items).value.None? <==> Open !in items)
  {
    AssembleFromNull(copy, items, [], Unset);
  }

  /** Which copy is run changes only the form of the error thrown. */
  lemma {:induction false} AssembleFromCopies(items: seq<Item>, stack: seq<seq<Entry>>, main: MainLine)
    ensures AssembleFrom(SgfJs, items, stack, main).Success? <==> AssembleFrom(NewJs, items, stack, main).Success?
    ensures AssembleFrom(SgfJs, items, stack, main).Success? ==>
      AssembleFrom(SgfJs, items, stack, main).value == AssembleFrom(NewJs, items, stack, main).value
    decreases |items|
  {
    if items != [] {
      var next := Advance(items[0], stack, main);
      if next.Success? {
        AssembleFromCopies(items[1..], next.value.0, next.value.1);
      }
    }
  }


  // ------------------------------------------------------------ round trip

  /** The items that write a line out: a node as itself, a list of branches as
      each of its variations in parentheses. */
  function Unparse(es: seq<Entry>): seq<Item>
    decreases es
  {
    if es == [] then [] else UnparseEntry(es[0]) + Unparse(es[1..])
  }

  function UnparseEntry(e: Entry): seq<Item>
    decreases e
  {
    match e
    case NodeEntry(props) => [Node(props)]
    case Branches(vs) => UnparseVariations(vs)
  }

  function UnparseVariations(vs: seq<Variation>): seq<Item>
    decreases vs
  {
    if vs == [] then [] else [Open] + Unparse(vs[0].entries) + [Close] + UnparseVariations(vs[1..])
  }

  /** A line as `sgfToJS` builds it: a list of branches is never empty and never
      directly follows another one (the second would have joined the first). */
  predicate Canonical(es: seq<Entry>)
    decreases es
  {
    es == [] || (CanonicalEntry(es[0]) && (|es| == 1 || !(es[0].Branches? && es[1].Branches?)) && Canonical(es[1..]))
  }

  predicate CanonicalEntry(e: Entry)
    decreases e
  {
    e.Branches? ==> |e.variations| > 0 && CanonicalVariations(e.variations)
  }

  predicate CanonicalVariations(vs: seq<Variation>)
    decreases vs
  {
    vs == [] || (Canonical(vs[0].entries) && CanonicalVariations(vs[1..]))
  }

  /** The open variation `cur`, followed by a list of the branches `done` when there are any. */
  function WithBranches(cur: seq<Entry>, done: seq<Variation>): seq<Entry> {
    if done == [] then cur else cur + [Branches(done)]
  }

  lemma AssembleOpenStep(copy: Copy, rest: seq<Item>, stack: seq<seq<Entry>>, main: MainLine)
    ensures AssembleFrom(copy, [Open] + rest, stack, main) ==
            AssembleFrom(copy, rest, stack + [[]], if main.Unset? then Opened else main)
  {
    assert ([Open] + rest)[1..] == rest;
  }

  lemma AssembleNodeStep(copy: Copy, props: map<string, string>, rest: seq<Item>, stack: seq<seq<Entry>>, cur: seq<Entry>, main: MainLine)
    ensures AssembleFrom(copy, [Node(props)] + rest, stack + [cur], main) ==
            AssembleFrom(copy, rest, stack + [cur + [NodeEntry(props)]], main)
  {
    var s := stack + [cur];
    assert s[..|s| - 1] == stack && s[|s| - 1] == cur;
    assert ([Node(props)] + rest)[1..] == rest;
  }

  lemma AssembleCloseStep(copy: Copy, rest: seq<Item>, stack: seq<seq<Entry>>, parent: seq<Entry>, v: seq<Entry>, main: MainLine)
    ensures AssembleFrom(copy, [Close] + rest, stack + [parent] + [v], main) ==
            AssembleFrom(copy, rest, stack + [Attach(parent, v)], main)
  {
    var s := stack + [parent] + [v];
    var below := s[..|s| - 1];
    assert s[|s| - 1] == v && below == stack + [parent];
    assert below[..|below| - 1] == stack && below[|below| - 1] == parent;
    assert ([Close] + rest)[1..] == rest;
  }

  lemma AttachWithBranches(cur: seq<Entry>, done: seq<Variation>, v: seq<Entry>)
    requires cur == [] || !cur[|cur| - 1].Branches?
    ensures Attach(WithBranches(cur, done), v) == WithBranches(cur, done + [Variation(v)])
  {
    if done != [] {
      var w := cur + [Branches(done)];
      assert w[..|w| - 1] == cur;
    } else {
      assert done + [Variation(v)] == [Variation(v)];
    }
  }

  lemma {:induction false} AssembleLine(copy: Copy, es: seq<Entry>, rest: seq<Item>, stack: seq<seq<Entry>>, cur: seq<Entry>, main: MainLine)
    requires Canonical(es) && !main.Unset?
    requires es == [] || !es[0].Branches? || cur == [] || !cur[|cur| - 1].Branches?
    ensures AssembleFrom(copy, Unparse(es) + rest, stack + [cur], main) ==
            AssembleFrom(copy, rest, stack + [cur + es], main)
    decreases es
  {
    if es == [] {
      assert Unparse(es) + rest == rest;
      assert cur + es == cur;
    } else {
      var e := es[0];
      var later := Unparse(es[1..]) + rest;
      assert Unparse(es) + rest == UnparseEntry(e) + later;
      if e.NodeEntry? {
        assert UnparseEntry(e) == [Node(e.props)];
        AssembleNodeStep(copy, e.props, later, stack, cur, main);
      } else {
        assert UnparseEntry(e) == UnparseVariations(e.variations);
        AssembleVariations(copy, e.variations, later, stack, cur, [], main);
        assert [] + e.variations == e.variations;
      }
      AppendHead(cur, es);
      AssembleLine(copy, es[1..], rest, stack, cur + [e], main);
    }
  }

  lemma {:induction false} AssembleVariations(copy: Copy, vs: seq<Variation>, rest: seq<Item>, stack: seq<seq<Entry>>,
                                             cur: seq<Entry>, done: seq<Variation>, main: MainLine)
    requires CanonicalVariations(vs) && !main.Unset?
    requires cur == [] || !cur[|cur| - 1].Branches?
    ensures AssembleFrom(copy, UnparseVariations(vs) + rest, stack + [WithBranches(cur, done)], main) ==
            AssembleFrom(copy, rest, stack + [WithBranches(cur, done + vs)], main)
    decreases vs
  {
    if vs == [] {
      assert UnparseVariations(vs) + rest == rest;
      assert done + vs == done;
    } else {
      var v := vs[0].entries;
      var tail := UnparseVariations(vs[1..]) + rest;
      var s0 := stack + [WithBranches(cur, done)];
      assert UnparseVariations(vs) + rest == [Open] + (Unparse(v) + ([Close] + tail));
      AssembleOpenStep(copy, Unparse(v) + ([Close] + tail), s0, main);
      AssembleLine(copy, v, [Close] + tail, s0, [], main);
      assert [] + v == v;
      AssembleCloseStep(copy, tail, stack, WithBranches(cur, done), v, main);
      AttachWithBranches(cur, done, v);
      assert vs[0] == Variation(v);
      var done' := done + [vs[0]];
      AppendHead(done, vs);
      AssembleVariations(copy, vs[1..], rest, stack, cur, done', main);
    }
  }

  /** Writing a line out in parentheses and reading it back gives the line. */
  lemma AssembleRoundTrip(copy: Copy, m: seq<Entry>)
    requires Canonical(m)
    ensures Assemble(copy, [Open] + Unparse(m) + [Close]) == Success(Some(m))
  {
    var none: seq<seq<Entry>> := [];
    assert [Open] + Unparse(m) + [Close] == [Open] + (Unparse(m) + [Close]);
    AssembleOpenStep(copy, Unparse(m) + [Close], none, Unset);
    assert none + [[]] == [[]];
    AssembleLine(copy, m, [Close], none, [], Opened);
    var empty: seq<Entry> := [];
    assert empty + m == m;
    assert none + [empty + m] == [m];
    assert [Close][1..] == [];
  }

  /** `sgfToJS` as a value: tokenize, compact, then nest. `None` is `null`. */
  function Parse(copy: Copy, sgf: string): Result<Option<seq<Entry>>, Thrown> {
    var tokens :- Lex(copy, sgf);
    var items :- Compact(tokens);
    Assemble(copy, items)
  }

  /** The loop of `sgfToJS` over the compacted tokens, with the source's
      variation stack and `mainLine`. */
  method NestVariations(copy: Copy, items: seq<Item>) returns (r: Result<Option<seq<Entry>>, Thrown>)
    ensures r == Assemble(copy, items)
  {
    var mainLine := Unset;
    var variationStack: seq<seq<Entry>> := [];
    var i := 0;
    while i < |items|
      invariant 0 <= i <= |items|
      invariant Assemble(copy, items) == AssembleFrom(copy, items[i..], variationStack, mainLine)
      decreases |items| - i
    {
      assert items[i..][1..] == items[i + 1..];
      match items[i] {
        case Open =>
          if mainLine.Unset? {
            mainLine := Opened;
          }
          variationStack := variationStack + [[]];
        case Close =>
          if variationStack != [] {
            var top := variationStack[|variationStack| - 1];
            variationStack := variationStack[..|variationStack| - 1];
            if variationStack != [] {
              var parent := variationStack[|variationStack| - 1];
              variationStack := variationStack[..|variationStack| - 1] + [Attach(parent, top)];
            } else if mainLine.Opened? {
              mainLine := Finished(top);
            }
          }
        case Node(props) =>
          if variationStack == [] {
            return Failure(NullReceiver);
          }
          var current := variationStack[|variationStack| - 1];
          variationStack := variationStack[..|variationStack| - 1] + [current + [NodeEntry(props)]];
      }
      i := i + 1;
    }
    if variationStack != [] {
      return Failure(Raise(copy, TOO_FEW_ENDS));
    }
    if mainLine.Finished? {
      return Success(Some(mainLine.line));
    }
    return Success(None);
  }

  /** `sgfToJS`: tokenize, compact, then nest; the first error propagates. */
  method SgfToJS(copy: Copy, sgf: string) returns (r: Result<Option<seq<Entry>>, Thrown>)
    ensures r == Parse(copy, sgf)
  {
    var tokens := Tokenize(copy, sgf);
    if tokens.Failure? {
      return Failure(tokens.error);
    }
    var compacted := CompactMoves(tokens.value);
    if compacted.Failure? {
      return Failure(compacted.error);
    }
    r := NestVariations(copy, compacted.value);
  }

  /** The two copies read the same texts to the same result and fail on the
      same texts. */
  lemma CopiesParseAlike(sgf: string)
    ensures Parse(SgfJs, sgf).Success? <==> Parse(NewJs, sgf).Success?
    ensures Parse(SgfJs, sgf).Success? ==> Parse(SgfJs, sgf).value == Parse(NewJs, sgf).value
  {
    CopiesLexAlike(sgf);
    var tokens := Lex(SgfJs, sgf);
    if tokens.Success? {
      var items := Compact(tokens.value);
      if items.Success? {
        AssembleFromCopies(items.value, [], Unset);
      }
    }
  }

  /** A key not followed by `[` is refused. */
  lemma KeyWithoutValueFails(copy: Copy, s: string)
    requires LetterRun(s) > 0
    requires var rest := Trim(s[LetterRun(s)..]); rest == [] || rest[0] != '['
    ensures ReadProperty(copy, s).Failure?
  {
  }

  lemma NotSgfKey()
    ensures LetterRun("ZOMG BROKEN") == 4
  {
    var s := "ZOMG BROKEN";
    assert s[1..] == "OMG BROKEN" && s[1..][1..] == "MG BROKEN";
    assert s[1..][1..][1..] == "G BROKEN" && s[1..][1..][1..][1..] == " BROKEN";
  }

  lemma NotSgfRest()
    ensures Trim("ZOMG BROKEN"[4..]) == "BROKEN"
  {
    var word := "BROKEN";
    assert "ZOMG BROKEN"[4..] == [' '] + word;
    assert ([' '] + word)[1..] == word;
    TrimStartSkip([' '] + word);
    TrimStartNoOp(word);
    TrimEndNoOp(word);
  }

  lemma NotSgfLexFails(copy: Copy)
    ensures Lex(copy, "ZOMG BROKEN") == Failure(Raise(copy, INVALID_SGF))
  {
    var s := "ZOMG BROKEN";
    TrimStartNoOp(s);
    NotSgfKey();
    NotSgfRest();
    KeyWithoutValueFails(copy, s);
    NextTokenOfLetter(copy, s);
  }

  /** Text that is not SGF at all (`ZOMG BROKEN`) is refused by the lexer. */
  lemma NotSgfFails(copy: Copy)
    ensures Parse(copy, "ZOMG BROKEN") == Failure(Raise(copy, INVALID_SGF))
  {
    NotSgfLexFails(copy);
  }

  lemma UnclosedVariationTokens(copy: Copy)
    ensures Lex(copy, "(;B[aa]") == Success([StartVariation, StartMove, Property("B", "aa")])
  {
    var ts := [StartVariation, StartMove, Property("B", "aa")];
    assert Escape("aa") == "aa" by {
      assert "aa"[1..] == "a";
      assert "a"[1..] == [];
    }
    assert Render(ts) == "(;B[aa]" by {
      assert ts[1..] == [StartMove, Property("B", "aa")];
      assert ts[1..][1..] == [Property("B", "aa")];
      assert ts[1..][1..][1..] == [];
    }
    LexRender(copy, ts);
  }

  lemma UnclosedVariationItems()
    ensures Compact([StartVariation, StartMove, Property("B", "aa")]) == Success([Open])
  {
    var ws := [WOpen, WNode([("B", "aa")])];
    assert TokensOf(ws) == [StartVariation, StartMove, Property("B", "aa")] by {
      assert ws[1..] == [WNode([("B", "aa")])];
      assert ws[1..][1..] == [];
      assert PropertyTokens([("B", "aa")]) == [Property("B", "aa")] by {
        assert [("B", "aa")][1..] == [];
      }
    }
    CompactWritten(ws);
    assert DropTrailingNode(ws) == [WOpen];
    assert ItemsOf([WOpen]) == [Open];
  }

  /** A variation that is never closed: the node in it is dropped (nothing
      follows it), and the open variation is reported. */
  lemma UnclosedVariationFails(copy: Copy)
    ensures Parse(copy, "(;B[aa]") == Failure(Raise(copy, TOO_FEW_ENDS))
  {
    UnclosedVariationTokens(copy);
    UnclosedVariationItems();
    assert [Open][1..] == [];
  }

  lemma EscapePlainPair(v: string)
    requires |v| == 2 && v[0] != ']' && v[1] != ']'
    ensures Escape(v) == v
  {
    assert v[1..][1..] == [];
    assert Escape(v[1..]) == v[1..];
  }

  /** `(;B[aa](;W[bb])(;W[cc]))` as a line: one node, then two variations. */
  function SiblingLine(): seq<Entry> {
    [NodeEntry(map["B" := "aa"]),
     Branches([Variation([NodeEntry(map["W" := "bb"])]), Variation([NodeEntry(map["W" := "cc"])])])]
  }

  lemma SiblingLineCanonical()
    ensures Canonical(SiblingLine())
  {
    var m := SiblingLine();
    var vs := m[1].variations;
    var w1, w2 := vs[0].entries, vs[1].entries;
    assert [w1[0]] == w1 && [w2[0]] == w2;
    assert w1[1..] == [] && w2[1..] == [];
    assert Canonical(w1) && Canonical(w2);
    assert vs[1..][1..] == [];
    assert CanonicalVariations(vs[1..]);
    assert CanonicalVariations(vs);
    assert m[1..][1..] == [];
    assert Canonical(m[1..]);
  }

  lemma SiblingLineItems()
    ensures [Open] + Unparse(SiblingLine()) + [Close] ==
      [Open, Node(map["B" := "aa"]), Open, Node(map["W" := "bb"]), Close, Open, Node(map["W" := "cc"]), Close, Close]
  {
    var m := SiblingLine();
    var vs := m[1].variations;
    var w1, w2 := vs[0].entries, vs[1].entries;
    assert Unparse(w1) == [Node(map["W" := "bb"])] by {
      assert w1[1..] == [];
    }
    assert UnparseVariations(vs[1..]) == [Open, Node(map["W" := "cc"]), Close] by {
      assert w2[1..] == [];
      assert vs[1..][0] == vs[1] && vs[1..][1..] == [];
    }
    assert UnparseVariations(vs) == [Open, Node(map["W" := "bb"]), Close, Open, Node(map["W" := "cc"]), Close];
    assert Unparse(m[1..]) == UnparseVariations(vs) by {
      assert m[1..][0] == m[1] && m[1..][1..] == [];
    }
  }

  /** Sibling variations join one list of branches: the items of
      `(;B[aa](;W[bb])(;W[cc]))` nest as one node followed by two variations. */
  lemma SiblingVariationsExample(copy: Copy)
    ensures Assemble(copy, [Open, Node(map["B" := "aa"]), Open, Node(map["W" := "bb"]), Close,
                            Open, Node(map["W" := "cc"]), Close, Close]) == Success(Some(SiblingLine()))
  {
    SiblingLineCanonical();
    SiblingLineItems();
    AssembleRoundTrip(copy, SiblingLine());
  }
}

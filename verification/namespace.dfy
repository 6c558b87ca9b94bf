/**
  A method's namespace (symbol_table.cpp, lines 48-61 and `add_variables`,
  lines 69-82): one flat map holding the method's own name, then every
  parameter, then every local, where the first declaration of a name wins and
  every later one is reported.
 */
module Namespaces {
  import opened Ast
  import opened InsensitiveMaps
  import opened Diagnostics

  /** What a namespace records for a name: its type and the line declaring it. */
  datatype FunctionVariable = FunctionVariable(typ: TypeDenoter, lineNumber: int)

  type Namespace = InsensitiveMap<FunctionVariable>

  /** An identifier paired with the type of the group that declares it. */
  datatype Binding = Binding(identifier: Identifier, typ: TypeDenoter)

  /** The identifiers of one group, each with the group's type. */
  function Bindings(decl: VariableDeclaration): (bs: seq<Binding>)
    ensures |bs| == |decl.idList|
    ensures forall i :: 0 <= i < |bs| ==> bs[i] == Binding(decl.idList[i], decl.typ)
  {
    seq(|decl.idList|, i requires 0 <= i < |decl.idList| => Binding(decl.idList[i], decl.typ))
  }

  /** The identifiers of a list of groups, group after group. */
  function GroupBindings(groups: seq<VariableDeclaration>): seq<Binding>
    decreases |groups|
  {
    if groups == [] then [] else GroupBindings(groups[..|groups| - 1]) + Bindings(groups[|groups| - 1])
  }

  /** The key a binding is stored under. */
  function Key(fold: string -> string, b: Binding): string
  {
    fold(b.identifier.text)
  }

  function Keys(fold: string -> string, bs: seq<Binding>): set<string>
  {
    set i | 0 <= i < |bs| :: Key(fold, bs[i])
  }

  lemma KeysLast(fold: string -> string, bs: seq<Binding>)
    requires bs != []
    ensures Keys(fold, bs) == Keys(fold, bs[..|bs| - 1]) + {Key(fold, bs[|bs| - 1])}
  {
    var init := bs[..|bs| - 1];
    forall k | k in Keys(fold, init)
      ensures k in Keys(fold, bs)
    {
      var j :| 0 <= j < |init| && Key(fold, init[j]) == k;
      assert bs[j] == init[j];
    }
  }

  lemma KeysFirst(fold: string -> string, bs: seq<Binding>)
    requires bs != []
    ensures Keys(fold, bs) == {Key(fold, bs[0])} + Keys(fold, bs[1..])
  {
    var rest := bs[1..];
    forall k | k in Keys(fold, rest)
      ensures k in Keys(fold, bs)
    {
      var j :| 0 <= j < |rest| && Key(fold, rest[j]) == k;
      assert bs[j + 1] == rest[j];
    }
    forall k | k in Keys(fold, bs)
      ensures k in {Key(fold, bs[0])} + Keys(fold, rest)
    {
      var j :| 0 <= j < |bs| && Key(fold, bs[j]) == k;
      if j > 0 {
        assert rest[j - 1] == bs[j];
      }
    }
  }

  /** The binding at position i is the first use of its key: not taken beforehand, not used earlier in `bs`. */
  ghost predicate FirstAt(fold: string -> string, taken: set<string>, bs: seq<Binding>, i: int)
    requires 0 <= i < |bs|
  {
    && Key(fold, bs[i]) !in taken
    && forall j :: 0 <= j < i ==> Key(fold, bs[j]) != Key(fold, bs[i])
  }

  /** No binding of `bs` clashes: all keys are new and pairwise distinct. */
  ghost predicate Fresh(fold: string -> string, taken: set<string>, bs: seq<Binding>)
  {
    forall i :: 0 <= i < |bs| ==> FirstAt(fold, taken, bs, i)
  }

  lemma FirstAtKeys(fold: string -> string, taken: set<string>, bs: seq<Binding>, i: int)
    requires 0 <= i < |bs|
    ensures FirstAt(fold, taken, bs, i) <==> Key(fold, bs[i]) !in taken + Keys(fold, bs[..i])
  {
    var before := bs[..i];
    if Key(fold, bs[i]) in Keys(fold, before) {
      var j :| 0 <= j < |before| && Key(fold, before[j]) == Key(fold, bs[i]);
      assert bs[j] == before[j];
    }
    if !FirstAt(fold, taken, bs, i) && Key(fold, bs[i]) !in taken {
      var j :| 0 <= j < i && Key(fold, bs[j]) == Key(fold, bs[i]);
      assert before[j] == bs[j];
    }
  }

  lemma FreshLast(fold: string -> string, taken: set<string>, bs: seq<Binding>)
    requires bs != []
    ensures Fresh(fold, taken, bs) <==>
      Fresh(fold, taken, bs[..|bs| - 1]) && Key(fold, bs[|bs| - 1]) !in taken + Keys(fold, bs[..|bs| - 1])
  {
    var init := bs[..|bs| - 1];
    FirstAtKeys(fold, taken, bs, |bs| - 1);
    forall i | 0 <= i < |init|
      ensures FirstAt(fold, taken, bs, i) <==> FirstAt(fold, taken, init, i)
    {
      assert bs[i] == init[i];
      assert forall j :: 0 <= j < i ==> bs[j] == init[j];
    }
  }

  /**
    The bindings that clash, in order: those whose key is already taken,
    either beforehand or by an earlier binding of `bs`.
   */
  function Colliding(fold: string -> string, taken: set<string>, bs: seq<Binding>): seq<Binding>
    decreases |bs|
  {
    if bs == [] then []
    else if Key(fold, bs[0]) in taken then [bs[0]] + Colliding(fold, taken, bs[1..])
    else Colliding(fold, taken + {Key(fold, bs[0])}, bs[1..])
  }

  lemma {:induction false} CollidingAppend(fold: string -> string, taken: set<string>, a: seq<Binding>, b: seq<Binding>)
    ensures Colliding(fold, taken, a + b) == Colliding(fold, taken, a) + Colliding(fold, taken + Keys(fold, a), b)
    decreases |a|
  {
    if a == [] {
      assert a + b == b;
      assert Keys(fold, a) == {};
      assert taken + Keys(fold, a) == taken;
      assert Colliding(fold, taken, a) == [];
    } else {
      assert (a + b)[0] == a[0];
      assert (a + b)[1..] == a[1..] + b;
      KeysFirst(fold, a);
      if Key(fold, a[0]) in taken {
        CollidingAppend(fold, taken, a[1..], b);
        assert taken + Keys(fold, a) == taken + Keys(fold, a[1..]);
      } else {
        CollidingAppend(fold, taken + {Key(fold, a[0])}, a[1..], b);
        assert taken + Keys(fold, a) == taken + {Key(fold, a[0])} + Keys(fold, a[1..]);
      }
    }
  }

  /**
    One turn of the loop in `add_variables`: an absent name is put with the
    binding's type and line; a present one is left as it is, clears the
    success flag and is reported against the line already recorded.
   */
  function AddIdentifier(fold: string -> string, w: Walk<Namespace>, b: Binding): Walk<Namespace>
  {
    var text := b.identifier.text;
    if !HasKey(fold, w.value, text) then
      Walk(Put(fold, w.value, text, FunctionVariable(b.typ, b.identifier.line)), w.success, w.diagnostics)
    else
      var first := Item(fold, w.value, text).lineNumber;
      Walk(w.value, false, w.diagnostics + [Diagnostic(DuplicateVariable, text, b.identifier.line, first)])
  }

  /** The loop in `add_variables`, over a sequence of bindings, in order. */
  function AddIdentifiers(fold: string -> string, w: Walk<Namespace>, bs: seq<Binding>): (r: Walk<Namespace>)
    ensures forall k :: k in w.value.entries ==> k in r.value.entries && r.value.entries[k] == w.value.entries[k]
    ensures r.value.entries.Keys == w.value.entries.Keys + Keys(fold, bs)
    ensures r.success <==> w.success && Fresh(fold, w.value.entries.Keys, bs)
    ensures |w.diagnostics| <= |r.diagnostics| && r.diagnostics[..|w.diagnostics|] == w.diagnostics
    ensures |r.diagnostics| == |w.diagnostics| <==> Fresh(fold, w.value.entries.Keys, bs)
    ensures forall t :: |w.diagnostics| <= t < |r.diagnostics| ==> r.diagnostics[t].kind == DuplicateVariable
    decreases |bs|
  {
    if bs == [] then w
    else
      KeysLast(fold, bs);
      FreshLast(fold, w.value.entries.Keys, bs);
      AddIdentifier(fold, AddIdentifiers(fold, w, bs[..|bs| - 1]), bs[|bs| - 1])
  }

  /** Every binding that is the first use of its key ends up stored with its own type and line. */
  lemma {:induction false} AddIdentifiersFirstWins(fold: string -> string, w: Walk<Namespace>, bs: seq<Binding>)
    ensures var r := AddIdentifiers(fold, w, bs);
      forall i :: 0 <= i < |bs| && FirstAt(fold, w.value.entries.Keys, bs, i) ==>
        Key(fold, bs[i]) in r.value.entries &&
        r.value.entries[Key(fold, bs[i])] == FunctionVariable(bs[i].typ, bs[i].identifier.line)
    decreases |bs|
  {
    if bs != [] {
      var init := bs[..|bs| - 1];
      var last := bs[|bs| - 1];
      AddIdentifiersFirstWins(fold, w, init);
      var prev := AddIdentifiers(fold, w, init);
      var r := AddIdentifiers(fold, w, bs);
      assert r == AddIdentifier(fold, prev, last);
      forall i | 0 <= i < |bs| && FirstAt(fold, w.value.entries.Keys, bs, i)
        ensures Key(fold, bs[i]) in r.value.entries
        ensures r.value.entries[Key(fold, bs[i])] == FunctionVariable(bs[i].typ, bs[i].identifier.line)
      {
        if i < |bs| - 1 {
          assert bs[i] == init[i];
          assert forall j :: 0 <= j < i ==> bs[j] == init[j];
          assert FirstAt(fold, w.value.entries.Keys, init, i);
        } else {
          FirstAtKeys(fold, w.value.entries.Keys, bs, i);
          assert bs[..i] == init;
        }
      }
    }
  }

  /** The diagnostics after the first `n` are one per clash, each naming the line of the entry that was kept. */
  ghost predicate ReportsClashes(fold: string -> string, n: nat, r: Walk<Namespace>, clashes: seq<Binding>)
  {
    && n <= |r.diagnostics|
    && |r.diagnostics| - n == |clashes|
    && forall t :: 0 <= t < |clashes| ==>
      && Key(fold, clashes[t]) in r.value.entries
      && r.diagnostics[n + t] == Diagnostic(DuplicateVariable, clashes[t].identifier.text, clashes[t].identifier.line,
                                            r.value.entries[Key(fold, clashes[t])].lineNumber)
  }

  lemma ReportsFreshStep(fold: string -> string, n: nat, prev: Walk<Namespace>, last: Binding, clashes: seq<Binding>)
    requires ReportsClashes(fold, n, prev, clashes)
    requires !HasKey(fold, prev.value, last.identifier.text)
    ensures ReportsClashes(fold, n, AddIdentifier(fold, prev, last), clashes)
  {
    var r := AddIdentifier(fold, prev, last);
    assert r.diagnostics == prev.diagnostics;
    forall t | 0 <= t < |clashes|
      ensures Key(fold, clashes[t]) in r.value.entries
      ensures r.value.entries[Key(fold, clashes[t])] == prev.value.entries[Key(fold, clashes[t])]
    {
      assert Key(fold, clashes[t]) != Key(fold, last);
    }
  }

  lemma ReportsClashStep(fold: string -> string, n: nat, prev: Walk<Namespace>, last: Binding, clashes: seq<Binding>)
    requires ReportsClashes(fold, n, prev, clashes)
    requires HasKey(fold, prev.value, last.identifier.text)
    ensures ReportsClashes(fold, n, AddIdentifier(fold, prev, last), clashes + [last])
  {
    var r := AddIdentifier(fold, prev, last);
    assert r.value == prev.value;
    assert r.diagnostics[..|prev.diagnostics|] == prev.diagnostics;
    forall t | 0 <= t < |clashes + [last]|
      ensures (clashes + [last])[t] == if t < |clashes| then clashes[t] else last
    {
    }
  }

  /**
    The diagnostics are exactly the clashing bindings, in order, each tagged
    with its own line and reporting the line of the entry that was kept.
   */
  lemma {:induction false} AddIdentifiersReports(fold: string -> string, w: Walk<Namespace>, bs: seq<Binding>)
    ensures var r := AddIdentifiers(fold, w, bs);
      var reported := r.diagnostics[|w.diagnostics|..];
      var clashes := Colliding(fold, w.value.entries.Keys, bs);
      && |reported| == |clashes|
      && forall t :: 0 <= t < |clashes| ==>
        && Key(fold, clashes[t]) in r.value.entries
        && reported[t] == Diagnostic(DuplicateVariable, clashes[t].identifier.text, clashes[t].identifier.line,
                                     r.value.entries[Key(fold, clashes[t])].lineNumber)
  {
    AddIdentifiersReportClashes(fold, w, bs);
  }

  lemma {:induction false} AddIdentifiersReportClashes(fold: string -> string, w: Walk<Namespace>, bs: seq<Binding>)
    ensures ReportsClashes(fold, |w.diagnostics|, AddIdentifiers(fold, w, bs), Colliding(fold, w.value.entries.Keys, bs))
    decreases |bs|
  {
    var taken := w.value.entries.Keys;
    if bs == [] {
      assert Colliding(fold, taken, bs) == [];
    } else {
      var init := bs[..|bs| - 1];
      var last := bs[|bs| - 1];
      AddIdentifiersReportClashes(fold, w, init);
      assert bs == init + [last];
      CollidingAppend(fold, taken, init, [last]);
      var prev := AddIdentifiers(fold, w, init);
      assert AddIdentifiers(fold, w, bs) == AddIdentifier(fold, prev, last);
      var before := Colliding(fold, taken, init);
      if HasKey(fold, prev.value, last.identifier.text) {
        assert Colliding(fold, taken + Keys(fold, init), [last]) == [last];
        ReportsClashStep(fold, |w.diagnostics|, prev, last, before);
      } else {
        assert Colliding(fold, taken + Keys(fold, init), [last]) == [];
        ReportsFreshStep(fold, |w.diagnostics|, prev, last, before);
      }
    }
  }

  /** Running the loop from a given state is running it from a clean state and combining the results. */
  lemma {:induction false} AddIdentifiersRestart(fold: string -> string, w: Walk<Namespace>, bs: seq<Binding>)
    ensures var x := AddIdentifiers(fold, Walk(w.value, true, []), bs);
      AddIdentifiers(fold, w, bs) == Walk(x.value, w.success && x.success, w.diagnostics + x.diagnostics)
    decreases |bs|
  {
    if bs != [] {
      var init := bs[..|bs| - 1];
      AddIdentifiersRestart(fold, w, init);
      var xi := AddIdentifiers(fold, Walk(w.value, true, []), init);
      var last := bs[|bs| - 1];
      if HasKey(fold, xi.value, last.identifier.text) {
        var d := Diagnostic(DuplicateVariable, last.identifier.text, last.identifier.line,
                            Item(fold, xi.value, last.identifier.text).lineNumber);
        assert w.diagnostics + xi.diagnostics + [d] == w.diagnostics + (xi.diagnostics + [d]);
      }
    }
  }

  /** Processing two sequences one after the other is processing their concatenation. */
  lemma {:induction false} AddIdentifiersAppend(fold: string -> string, w: Walk<Namespace>, a: seq<Binding>, b: seq<Binding>)
    ensures AddIdentifiers(fold, w, a + b) == AddIdentifiers(fold, AddIdentifiers(fold, w, a), b)
    decreases |b|
  {
    if b == [] {
      assert a + b == a;
    } else {
      AddIdentifiersAppend(fold, w, a, b[..|b| - 1]);
      assert (a + b)[..|a + b| - 1] == a + b[..|b| - 1];
      assert (a + b)[|a + b| - 1] == b[|b| - 1];
    }
  }

  /** The folded names of a list of identifiers. */
  function IdentifierKeys(fold: string -> string, ids: seq<Identifier>): set<string>
  {
    set i | 0 <= i < |ids| :: fold(ids[i].text)
  }

  /** Identifier i of `ids` is the first use of its folded name: not in `taken`, not used by an earlier identifier. */
  ghost predicate FirstIdentifier(fold: string -> string, taken: set<string>, ids: seq<Identifier>, i: int)
    requires 0 <= i < |ids|
  {
    && fold(ids[i].text) !in taken
    && forall j :: 0 <= j < i ==> fold(ids[j].text) != fold(ids[i].text)
  }

  lemma IdentifierKeysLast(fold: string -> string, ids: seq<Identifier>)
    requires ids != []
    ensures IdentifierKeys(fold, ids) == IdentifierKeys(fold, ids[..|ids| - 1]) + {fold(ids[|ids| - 1].text)}
  {
    var init := ids[..|ids| - 1];
    forall k | k in IdentifierKeys(fold, init)
      ensures k in IdentifierKeys(fold, ids)
    {
      var j :| 0 <= j < |init| && fold(init[j].text) == k;
      assert ids[j] == init[j];
    }
  }

  lemma FirstIdentifierKeys(fold: string -> string, taken: set<string>, ids: seq<Identifier>, i: int)
    requires 0 <= i < |ids|
    ensures FirstIdentifier(fold, taken, ids, i) <==> fold(ids[i].text) !in taken + IdentifierKeys(fold, ids[..i])
  {
    var before := ids[..i];
    if fold(ids[i].text) in IdentifierKeys(fold, before) {
      var j :| 0 <= j < |before| && fold(before[j].text) == fold(ids[i].text);
      assert ids[j] == before[j];
    }
    if !FirstIdentifier(fold, taken, ids, i) && fold(ids[i].text) !in taken {
      var j :| 0 <= j < i && fold(ids[j].text) == fold(ids[i].text);
      assert before[j] == ids[j];
    }
  }

  lemma FirstIdentifierPrefix(fold: string -> string, taken: set<string>, ids: seq<Identifier>, i: int)
    requires 0 <= i < |ids| - 1
    ensures FirstIdentifier(fold, taken, ids, i) <==> FirstIdentifier(fold, taken, ids[..|ids| - 1], i)
  {
    assert forall j :: 0 <= j <= i ==> ids[j] == ids[..|ids| - 1][j];
  }

  lemma IdentifierKeysFirst(fold: string -> string, ids: seq<Identifier>)
    requires ids != []
    ensures IdentifierKeys(fold, ids) == {fold(ids[0].text)} + IdentifierKeys(fold, ids[1..])
  {
    var rest := ids[1..];
    forall k | k in IdentifierKeys(fold, rest)
      ensures k in IdentifierKeys(fold, ids)
    {
      var j :| 0 <= j < |rest| && fold(rest[j].text) == k;
      assert ids[j + 1] == rest[j];
    }
    forall k | k in IdentifierKeys(fold, ids)
      ensures k in {fold(ids[0].text)} + IdentifierKeys(fold, rest)
    {
      var j :| 0 <= j < |ids| && fold(ids[j].text) == k;
      if j > 0 {
        assert rest[j - 1] == ids[j];
      }
    }
  }

  /**
    Reference definition of the redeclarations among `ids`, read front to
    back: those whose folded name is already taken, in order.
   */
  function CollidingIdentifiers(fold: string -> string, taken: set<string>, ids: seq<Identifier>): seq<Identifier>
    decreases |ids|
  {
    if ids == [] then []
    else if fold(ids[0].text) in taken then [ids[0]] + CollidingIdentifiers(fold, taken, ids[1..])
    else CollidingIdentifiers(fold, taken + {fold(ids[0].text)}, ids[1..])
  }

  lemma {:induction false} CollidingIdentifiersAppend(fold: string -> string, taken: set<string>, a: seq<Identifier>, b: seq<Identifier>)
    ensures CollidingIdentifiers(fold, taken, a + b) ==
      CollidingIdentifiers(fold, taken, a) + CollidingIdentifiers(fold, taken + IdentifierKeys(fold, a), b)
    decreases |a|
  {
    if a == [] {
      assert a + b == b;
      assert IdentifierKeys(fold, a) == {};
      assert taken + IdentifierKeys(fold, a) == taken;
      assert CollidingIdentifiers(fold, taken, a) == [];
    } else {
      assert (a + b)[0] == a[0];
      assert (a + b)[1..] == a[1..] + b;
      IdentifierKeysFirst(fold, a);
      if fold(a[0].text) in taken {
        CollidingIdentifiersAppend(fold, taken, a[1..], b);
        assert taken + IdentifierKeys(fold, a) == taken + IdentifierKeys(fold, a[1..]);
      } else {
        CollidingIdentifiersAppend(fold, taken + {fold(a[0].text)}, a[1..], b);
        assert taken + IdentifierKeys(fold, a) == taken + {fold(a[0].text)} + IdentifierKeys(fold, a[1..]);
      }
    }
  }

  /** Appending one identifier adds it to the redeclarations exactly when its name is already taken. */
  lemma CollidingIdentifiersLast(fold: string -> string, taken: set<string>, ids: seq<Identifier>)
    requires ids != []
    ensures var init := ids[..|ids| - 1];
      var last := ids[|ids| - 1];
      CollidingIdentifiers(fold, taken, ids) ==
        CollidingIdentifiers(fold, taken, init) +
        (if fold(last.text) in taken + IdentifierKeys(fold, init) then [last] else [])
  {
    var init := ids[..|ids| - 1];
    var last := ids[|ids| - 1];
    assert ids == init + [last];
    CollidingIdentifiersAppend(fold, taken, init, [last]);
    assert [last][1..] == [];
  }

  /** No identifier of `ids` clashes: every folded name is new and used once. */
  ghost predicate DistinctIdentifiers(fold: string -> string, taken: set<string>, ids: seq<Identifier>)
  {
    forall i :: 0 <= i < |ids| ==> FirstIdentifier(fold, taken, ids, i)
  }

  lemma DistinctIdentifiersLast(fold: string -> string, taken: set<string>, ids: seq<Identifier>)
    requires ids != []
    ensures DistinctIdentifiers(fold, taken, ids) <==>
      DistinctIdentifiers(fold, taken, ids[..|ids| - 1]) && fold(ids[|ids| - 1].text) !in taken + IdentifierKeys(fold, ids[..|ids| - 1])
  {
    var init := ids[..|ids| - 1];
    var last := ids[|ids| - 1];
    forall i | 0 <= i < |init|
      ensures FirstIdentifier(fold, taken, ids, i) <==> FirstIdentifier(fold, taken, init, i)
    {
      assert ids[i] == init[i];
      assert forall j :: 0 <= j < i ==> ids[j] == init[j];
    }
    if fold(last.text) in IdentifierKeys(fold, init) {
      var j :| 0 <= j < |init| && fold(init[j].text) == fold(last.text);
      assert ids[j] == init[j];
      assert !FirstIdentifier(fold, taken, ids, |ids| - 1);
    }
    if !FirstIdentifier(fold, taken, ids, |ids| - 1) && fold(last.text) !in taken {
      var j :| 0 <= j < |ids| - 1 && fold(ids[j].text) == fold(last.text);
      assert init[j] == ids[j];
    }
  }

  lemma BindingsOfGroup(fold: string -> string, taken: set<string>, decl: VariableDeclaration)
    ensures Keys(fold, Bindings(decl)) == IdentifierKeys(fold, decl.idList)
    ensures forall i :: 0 <= i < |decl.idList| ==>
      (FirstAt(fold, taken, Bindings(decl), i) <==> FirstIdentifier(fold, taken, decl.idList, i))
  {
    var bs := Bindings(decl);
    forall k | k in IdentifierKeys(fold, decl.idList)
      ensures k in Keys(fold, bs)
    {
      var i :| 0 <= i < |decl.idList| && fold(decl.idList[i].text) == k;
      assert Key(fold, bs[i]) == k;
    }
  }

  /**
    `add_variables`: every identifier of the group is visited, even after a
    clash. An absent name is inserted with the group's type and its own line;
    a present one keeps its entry and makes the call return false.
   */
  function AddVariables(fold: string -> string, vars: Namespace, decl: VariableDeclaration): (r: Walk<Namespace>)
    ensures forall k :: k in vars.entries ==> k in r.value.entries && r.value.entries[k] == vars.entries[k]
    ensures r.value.entries.Keys == vars.entries.Keys + IdentifierKeys(fold, decl.idList)
    ensures forall i :: 0 <= i < |decl.idList| && FirstIdentifier(fold, vars.entries.Keys, decl.idList, i) ==>
      r.value.entries[fold(decl.idList[i].text)] == FunctionVariable(decl.typ, decl.idList[i].line)
    ensures r.success <==> forall i :: 0 <= i < |decl.idList| ==> FirstIdentifier(fold, vars.entries.Keys, decl.idList, i)
    ensures r.success <==> r.diagnostics == []
    ensures forall t :: 0 <= t < |r.diagnostics| ==>
      && r.diagnostics[t].kind == DuplicateVariable
      && fold(r.diagnostics[t].name) in vars.entries.Keys + IdentifierKeys(fold, decl.idList)
      && r.diagnostics[t].firstLine == r.value.entries[fold(r.diagnostics[t].name)].lineNumber
  {
    var start := Walk(vars, true, []);
    BindingsOfGroup(fold, vars.entries.Keys, decl);
    AddIdentifiersFirstWins(fold, start, Bindings(decl));
    AddIdentifiersReports(fold, start, Bindings(decl));
    AddIdentifiers(fold, start, Bindings(decl))
  }

  /**
    The loops at lines 56-57 and 60-61: `add_variables` on each group in turn,
    combined with `success &= …`, which makes the call whatever the flag
    already holds.
   */
  function AddVariableGroups(fold: string -> string, w: Walk<Namespace>, groups: seq<VariableDeclaration>): Walk<Namespace>
    decreases |groups|
  {
    if groups == [] then w
    else
      var prev := AddVariableGroups(fold, w, groups[..|groups| - 1]);
      var added := AddVariables(fold, prev.value, groups[|groups| - 1]);
      Walk(added.value, prev.success && added.success, prev.diagnostics + added.diagnostics)
  }

  /**
    Because `&=` never skips a call, running the groups one by one is the
    same as running one loop over all their identifiers with one flag.
   */
  lemma {:induction false} GroupsAreFlat(fold: string -> string, w: Walk<Namespace>, groups: seq<VariableDeclaration>)
    ensures AddVariableGroups(fold, w, groups) == AddIdentifiers(fold, w, GroupBindings(groups))
    decreases |groups|
  {
    if groups != [] {
      var init := groups[..|groups| - 1];
      var g := groups[|groups| - 1];
      GroupsAreFlat(fold, w, init);
      var prev := AddIdentifiers(fold, w, GroupBindings(init));
      AddIdentifiersRestart(fold, prev, Bindings(g));
      AddIdentifiersAppend(fold, w, GroupBindings(init), Bindings(g));
    }
  }

  /** A fresh namespace holding only the method's own name, with its type and line (lines 48-53). */
  function NewNamespace(fold: string -> string, f: FunctionDeclaration): Namespace
  {
    Put(fold, Empty(), f.identifier.text, FunctionVariable(f.typ, f.identifier.line))
  }

  /** Everything a method declares after its name: the parameters, then the locals. */
  function Declared(f: FunctionDeclaration): seq<Binding>
  {
    GroupBindings(f.parameterList) + GroupBindings(f.block.variableList)
  }

  /** No parameter or local of `f` clashes with its name or with one another. */
  ghost predicate FunctionWellDeclared(fold: string -> string, f: FunctionDeclaration)
  {
    Fresh(fold, {fold(f.identifier.text)}, Declared(f))
  }

  lemma NewNamespaceHoldsName(fold: string -> string, f: FunctionDeclaration)
    ensures NewNamespace(fold, f).entries.Keys == {fold(f.identifier.text)}
    ensures NewNamespace(fold, f).entries[fold(f.identifier.text)] == FunctionVariable(f.typ, f.identifier.line)
  {
  }

  /** The parameter loop followed by the local loop is one loop over `Declared(f)`. */
  lemma TwoLoopsAreOne(fold: string -> string, start: Walk<Namespace>, f: FunctionDeclaration)
    ensures AddVariableGroups(fold, AddVariableGroups(fold, start, f.parameterList), f.block.variableList)
         == AddIdentifiers(fold, start, Declared(f))
  {
    GroupsAreFlat(fold, start, f.parameterList);
    GroupsAreFlat(fold, AddVariableGroups(fold, start, f.parameterList), f.block.variableList);
    AddIdentifiersAppend(fold, start, GroupBindings(f.parameterList), GroupBindings(f.block.variableList));
  }

  /**
    The namespace of a newly registered method (lines 48-61): its own name
    first, then the parameter groups, then the local groups, all in one map.
   */
  function FunctionNamespace(fold: string -> string, f: FunctionDeclaration): (r: Walk<Namespace>)
    ensures fold(f.identifier.text) in r.value.entries
    ensures r.value.entries[fold(f.identifier.text)] == FunctionVariable(f.typ, f.identifier.line)
    ensures r.value.entries.Keys == {fold(f.identifier.text)} + Keys(fold, Declared(f))
    ensures r.success <==> FunctionWellDeclared(fold, f)
    ensures r.success <==> r.diagnostics == []
    ensures forall t :: 0 <= t < |r.diagnostics| ==> r.diagnostics[t].kind == DuplicateVariable
  {
    var start := Walk(NewNamespace(fold, f), true, []);
    NewNamespaceHoldsName(fold, f);
    TwoLoopsAreOne(fold, start, f);
    AddVariableGroups(fold, AddVariableGroups(fold, start, f.parameterList), f.block.variableList)
  }

  /** The namespace is what one loop over the parameters and locals makes of the fresh namespace. */
  lemma NamespaceIsOneLoop(fold: string -> string, f: FunctionDeclaration)
    ensures FunctionNamespace(fold, f) == AddIdentifiers(fold, Walk(NewNamespace(fold, f), true, []), Declared(f))
  {
    TwoLoopsAreOne(fold, Walk(NewNamespace(fold, f), true, []), f);
  }

  /**
    First declaration wins in a method's namespace: every parameter or local
    that is the first use of its name (the method's own name counts as used)
    is stored with its group's type and its own line.
   */
  lemma FunctionNamespaceFirstWins(fold: string -> string, f: FunctionDeclaration)
    ensures var r := FunctionNamespace(fold, f);
      var ds := Declared(f);
      forall i :: 0 <= i < |ds| && FirstAt(fold, {fold(f.identifier.text)}, ds, i) ==>
        Key(fold, ds[i]) in r.value.entries &&
        r.value.entries[Key(fold, ds[i])] == FunctionVariable(ds[i].typ, ds[i].identifier.line)
  {
    NamespaceIsOneLoop(fold, f);
    AddIdentifiersFirstWins(fold, Walk(NewNamespace(fold, f), true, []), Declared(f));
  }

  /**
    A method's diagnostics name exactly its clashing parameters and locals,
    in declaration order, each against the line of the entry that was kept.
   */
  lemma FunctionNamespaceReports(fold: string -> string, f: FunctionDeclaration)
    ensures var r := FunctionNamespace(fold, f);
      var clashes := Colliding(fold, {fold(f.identifier.text)}, Declared(f));
      && |r.diagnostics| == |clashes|
      && forall t :: 0 <= t < |clashes| ==>
        && Key(fold, clashes[t]) in r.value.entries
        && r.diagnostics[t] == Diagnostic(DuplicateVariable, clashes[t].identifier.text, clashes[t].identifier.line,
                                          r.value.entries[Key(fold, clashes[t])].lineNumber)
  {
    var start := Walk(NewNamespace(fold, f), true, []);
    var r := FunctionNamespace(fold, f);
    var x := AddIdentifiers(fold, start, Declared(f));
    assert r == x by {
      NamespaceIsOneLoop(fold, f);
    }
    NewNamespaceHoldsName(fold, f);
    AddIdentifiersReports(fold, start, Declared(f));
    assert x.diagnostics[|start.diagnostics|..] == x.diagnostics;
  }

  /** The method's own name is taken before any parameter or local: a parameter or local named like it fails. */
  lemma SelfNameReserved(fold: string -> string, f: FunctionDeclaration, i: int)
    requires 0 <= i < |Declared(f)|
    requires Key(fold, Declared(f)[i]) == fold(f.identifier.text)
    ensures !FunctionNamespace(fold, f).success
  {
    assert !FirstAt(fold, {fold(f.identifier.text)}, Declared(f), i);
  }

  /** Parameters and locals share one namespace: a local named like a parameter fails the method. */
  lemma LocalClashFails(fold: string -> string, f: FunctionDeclaration, i: int, j: int)
    requires 0 <= i < |GroupBindings(f.parameterList)|
    requires 0 <= j < |GroupBindings(f.block.variableList)|
    requires Key(fold, GroupBindings(f.parameterList)[i]) == Key(fold, GroupBindings(f.block.variableList)[j])
    ensures !FunctionNamespace(fold, f).success
  {
    var params := GroupBindings(f.parameterList);
    var ds := Declared(f);
    assert ds[i] == params[i];
    assert ds[|params| + j] == GroupBindings(f.block.variableList)[j];
    assert !FirstAt(fold, {fold(f.identifier.text)}, ds, |params| + j);
  }
}

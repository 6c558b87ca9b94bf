/**
  `build_symbol_table` (symbol_table.cpp, lines 8-67): the walk from the
  program through its classes to their fields and methods, building the
  three-level table program -> class -> method.

  A class whose name is taken is reported and skipped; its members are never
  looked at. Fields are put with no check. A method whose name is taken in its
  class is reported, skipped and fails the build; every other method gets its
  namespace. The table is returned only if no method or variable clashed.
 */
module SymbolTables {
  import opened Wrappers
  import opened Ast
  import opened InsensitiveMaps
  import opened Diagnostics
  import opened Namespaces

  /** A method's entry: its declaration and its namespace. */
  datatype FunctionSymbolTable = FunctionSymbolTable(functionDeclaration: FunctionDeclaration, variables: Namespace)

  /** A class's entry: its declaration, its fields, and its methods, in two separate maps. */
  datatype ClassSymbolTable = ClassSymbolTable(
    classDeclaration: ClassDeclaration,
    variables: InsensitiveMap<VariableDeclaration>,
    functionSymbols: InsensitiveMap<FunctionSymbolTable>)

  type SymbolTable = InsensitiveMap<ClassSymbolTable>

  type FieldMap = InsensitiveMap<VariableDeclaration>

  type MethodMap = InsensitiveMap<FunctionSymbolTable>

  // ---------------------------------------------------------------- fields

  /** Line 32 for each identifier of one group: put the name with the group, no existence check. */
  function PutFieldNames(fold: string -> string, m: FieldMap, ids: seq<Identifier>, g: VariableDeclaration): (r: FieldMap)
    ensures r.entries.Keys == m.entries.Keys + IdentifierKeys(fold, ids)
    ensures forall k :: k in IdentifierKeys(fold, ids) ==> r.entries[k] == g
    ensures forall k :: k in m.entries && k !in IdentifierKeys(fold, ids) ==> r.entries[k] == m.entries[k]
    decreases |ids|
  {
    if ids == [] then m
    else
      IdentifierKeysLast(fold, ids);
      Put(fold, PutFieldNames(fold, m, ids[..|ids| - 1], g), ids[|ids| - 1].text, g)
  }

  /** Group `g` declares a field whose folded name is k. */
  ghost predicate Declares(fold: string -> string, g: VariableDeclaration, k: string)
  {
    k in IdentifierKeys(fold, g.idList)
  }

  /** Group number `n` is the last of `groups` that declares k. */
  ghost predicate LastDeclaring(fold: string -> string, groups: seq<VariableDeclaration>, n: int, k: string)
    requires 0 <= n < |groups|
  {
    Declares(fold, groups[n], k) && forall h :: n < h < |groups| ==> !Declares(fold, groups[h], k)
  }

  /**
    Lines 28-33: the class's field groups, in order. As nothing is checked, a
    name declared twice ends up with the LAST group that declares it.
   */
  function AddFields(fold: string -> string, m: FieldMap, groups: seq<VariableDeclaration>): (r: FieldMap)
    ensures forall k :: k in m.entries ==> k in r.entries
    ensures forall n, k :: 0 <= n < |groups| && Declares(fold, groups[n], k) ==> k in r.entries
    ensures forall k :: k in r.entries ==> k in m.entries || exists n :: 0 <= n < |groups| && Declares(fold, groups[n], k)
    decreases |groups|
  {
    if groups == [] then m
    else
      var init := groups[..|groups| - 1];
      var last := groups[|groups| - 1];
      assert forall n :: 0 <= n < |init| ==> init[n] == groups[n];
      PutFieldNames(fold, AddFields(fold, m, init), last.idList, last)
  }

  /** Every field name is stored with the last group declaring it; names no group declares keep their entry. */
  lemma {:induction false} AddFieldsLastWins(fold: string -> string, m: FieldMap, groups: seq<VariableDeclaration>)
    ensures var r := AddFields(fold, m, groups);
      forall n, k :: 0 <= n < |groups| && LastDeclaring(fold, groups, n, k) ==> k in r.entries && r.entries[k] == groups[n]
    ensures var r := AddFields(fold, m, groups);
      forall k :: k in m.entries && (forall n :: 0 <= n < |groups| ==> !Declares(fold, groups[n], k)) ==>
        r.entries[k] == m.entries[k]
    decreases |groups|
  {
    if groups != [] {
      var init := groups[..|groups| - 1];
      var last := groups[|groups| - 1];
      AddFieldsLastWins(fold, m, init);
      var prev := AddFields(fold, m, init);
      var r := AddFields(fold, m, groups);
      assert r == PutFieldNames(fold, prev, last.idList, last);
      forall n, k | 0 <= n < |groups| && LastDeclaring(fold, groups, n, k)
        ensures k in r.entries && r.entries[k] == groups[n]
      {
        if n < |groups| - 1 {
          assert !Declares(fold, last, k);
          assert init[n] == groups[n];
          assert LastDeclaring(fold, init, n, k) by {
            forall h | n < h < |init|
              ensures !Declares(fold, init[h], k)
            {
              assert init[h] == groups[h];
            }
          }
        }
      }
      forall k | k in m.entries && (forall n :: 0 <= n < |groups| ==> !Declares(fold, groups[n], k))
        ensures r.entries[k] == m.entries[k]
      {
        assert !Declares(fold, last, k);
        assert forall n :: 0 <= n < |init| ==> init[n] == groups[n];
      }
    }
  }

  // --------------------------------------------------------------- methods

  /** The names of a class's methods, in declaration order. */
  function MethodNames(fs: seq<FunctionDeclaration>): (ids: seq<Identifier>)
    ensures |ids| == |fs|
    ensures forall i :: 0 <= i < |fs| ==> ids[i] == fs[i].identifier
  {
    seq(|fs|, i requires 0 <= i < |fs| => fs[i].identifier)
  }

  lemma MethodNamesPrefix(fs: seq<FunctionDeclaration>)
    requires fs != []
    ensures MethodNames(fs[..|fs| - 1]) == MethodNames(fs)[..|fs| - 1]
  {
  }

  /** The entry a newly registered method gets: its declaration and its namespace. */
  function MethodEntry(fold: string -> string, f: FunctionDeclaration): FunctionSymbolTable
  {
    FunctionSymbolTable(f, FunctionNamespace(fold, f).value)
  }

  /**
    Lines 38-62 for one method. A method whose name the class already has is
    reported against the kept method's line, fails the build and is not
    looked at further; otherwise its entry is put and its namespace's flag
    and diagnostics are added to the walk.
   */
  function AddFunction(fold: string -> string, w: Walk<MethodMap>, f: FunctionDeclaration): (r: Walk<MethodMap>)
    ensures HasKey(fold, w.value, f.identifier.text) ==>
      && r.value == w.value
      && !r.success
      && r.diagnostics == w.diagnostics + [Diagnostic(DuplicateFunction, f.identifier.text, f.identifier.line,
                                             Item(fold, w.value, f.identifier.text).functionDeclaration.identifier.line)]
    ensures !HasKey(fold, w.value, f.identifier.text) ==>
      && r.value.entries.Keys == w.value.entries.Keys + {fold(f.identifier.text)}
      && Item(fold, r.value, f.identifier.text).functionDeclaration == f
      && (r.success <==> w.success && FunctionWellDeclared(fold, f))
    ensures forall k :: k in w.value.entries ==> k in r.value.entries && r.value.entries[k] == w.value.entries[k]
    ensures |w.diagnostics| <= |r.diagnostics| && r.diagnostics[..|w.diagnostics|] == w.diagnostics
    ensures r.success <==> w.success && NoFatal(r.diagnostics[|w.diagnostics|..])
  {
    var text := f.identifier.text;
    if HasKey(fold, w.value, text) then
      var first := Item(fold, w.value, text).functionDeclaration.identifier.line;
      var d := Diagnostic(DuplicateFunction, text, f.identifier.line, first);
      assert (w.diagnostics + [d])[|w.diagnostics|..] == [d];
      assert [d][0].IsFatal();
      Walk(w.value, false, w.diagnostics + [d])
    else
      var ns := FunctionNamespace(fold, f);
      assert (w.diagnostics + ns.diagnostics)[|w.diagnostics|..] == ns.diagnostics;
      assert ns.diagnostics != [] ==> ns.diagnostics[0].IsFatal();
      Walk(Put(fold, w.value, text, MethodEntry(fold, f)), w.success && ns.success, w.diagnostics + ns.diagnostics)
  }

  /** The loop at lines 37-63: every method of the class, in order. */
  function AddFunctions(fold: string -> string, w: Walk<MethodMap>, fs: seq<FunctionDeclaration>): (r: Walk<MethodMap>)
    ensures forall k :: k in w.value.entries ==> k in r.value.entries && r.value.entries[k] == w.value.entries[k]
    ensures r.value.entries.Keys == w.value.entries.Keys + IdentifierKeys(fold, MethodNames(fs))
    ensures |w.diagnostics| <= |r.diagnostics| && r.diagnostics[..|w.diagnostics|] == w.diagnostics
    ensures r.success <==> w.success && NoFatal(r.diagnostics[|w.diagnostics|..])
    decreases |fs|
  {
    if fs == [] then
      assert IdentifierKeys(fold, MethodNames(fs)) == {};
      w
    else
      var init := fs[..|fs| - 1];
      var prev := AddFunctions(fold, w, init);
      var r := AddFunction(fold, prev, fs[|fs| - 1]);
      var key := fold(fs[|fs| - 1].identifier.text);
      assert r.value.entries.Keys == prev.value.entries.Keys + {key};
      assert IdentifierKeys(fold, MethodNames(fs)) == IdentifierKeys(fold, MethodNames(init)) + {key} by {
        MethodNamesPrefix(fs);
        IdentifierKeysLast(fold, MethodNames(fs));
      }
      ExtendReports(w.diagnostics, prev.diagnostics, r.diagnostics);
      r
  }

  /** A method that is new to the map is stored with the entry built from it alone. */
  lemma AddFunctionNew(fold: string -> string, w: Walk<MethodMap>, f: FunctionDeclaration)
    requires !HasKey(fold, w.value, f.identifier.text)
    ensures fold(f.identifier.text) in AddFunction(fold, w, f).value.entries
    ensures AddFunction(fold, w, f).value.entries[fold(f.identifier.text)] == MethodEntry(fold, f)
    ensures AddFunction(fold, w, f).diagnostics == w.diagnostics + FunctionNamespace(fold, f).diagnostics
  {
  }

  lemma {:induction false} FunctionsFirstWinsAt(fold: string -> string, w: Walk<MethodMap>, fs: seq<FunctionDeclaration>, i: int)
    requires 0 <= i < |fs| && FirstIdentifier(fold, w.value.entries.Keys, MethodNames(fs), i)
    ensures fold(fs[i].identifier.text) in AddFunctions(fold, w, fs).value.entries
    ensures AddFunctions(fold, w, fs).value.entries[fold(fs[i].identifier.text)] == MethodEntry(fold, fs[i])
    decreases |fs|
  {
    var init := fs[..|fs| - 1];
    var prev := AddFunctions(fold, w, init);
    assert AddFunctions(fold, w, fs) == AddFunction(fold, prev, fs[|fs| - 1]);
    MethodNamesPrefix(fs);
    if i < |fs| - 1 {
      assert fs[i] == init[i];
      FirstIdentifierPrefix(fold, w.value.entries.Keys, MethodNames(fs), i);
      FunctionsFirstWinsAt(fold, w, init, i);
      assert fold(fs[i].identifier.text) in prev.value.entries;
    } else {
      FirstIdentifierKeys(fold, w.value.entries.Keys, MethodNames(fs), i);
      assert MethodNames(fs)[..i] == MethodNames(init);
      assert !HasKey(fold, prev.value, fs[i].identifier.text);
      AddFunctionNew(fold, prev, fs[i]);
    }
  }

  /**
    First method wins: the entry under each name is the one built from the
    first method of that name, and no later method of the name leaves a trace.
   */
  lemma FunctionsFirstWins(fold: string -> string, w: Walk<MethodMap>, fs: seq<FunctionDeclaration>)
    ensures var r := AddFunctions(fold, w, fs);
      forall i :: 0 <= i < |fs| && FirstIdentifier(fold, w.value.entries.Keys, MethodNames(fs), i) ==>
        fold(fs[i].identifier.text) in r.value.entries &&
        r.value.entries[fold(fs[i].identifier.text)] == MethodEntry(fold, fs[i])
  {
    forall i | 0 <= i < |fs| && FirstIdentifier(fold, w.value.entries.Keys, MethodNames(fs), i)
      ensures fold(fs[i].identifier.text) in AddFunctions(fold, w, fs).value.entries
      ensures AddFunctions(fold, w, fs).value.entries[fold(fs[i].identifier.text)] == MethodEntry(fold, fs[i])
    {
      FunctionsFirstWinsAt(fold, w, fs, i);
    }
  }

  ghost predicate AllWellDeclared(fold: string -> string, fs: seq<FunctionDeclaration>)
  {
    forall i :: 0 <= i < |fs| ==> FunctionWellDeclared(fold, fs[i])
  }

  lemma AllWellDeclaredLast(fold: string -> string, fs: seq<FunctionDeclaration>)
    requires fs != []
    ensures AllWellDeclared(fold, fs) <==>
      AllWellDeclared(fold, fs[..|fs| - 1]) && FunctionWellDeclared(fold, fs[|fs| - 1])
  {
    var init := fs[..|fs| - 1];
    if AllWellDeclared(fold, fs) {
      forall i | 0 <= i < |init|
        ensures FunctionWellDeclared(fold, init[i])
      {
        assert init[i] == fs[i];
      }
    }
    if AllWellDeclared(fold, init) && FunctionWellDeclared(fold, fs[|fs| - 1]) {
      forall i | 0 <= i < |fs|
        ensures FunctionWellDeclared(fold, fs[i])
      {
        if i < |init| {
          assert fs[i] == init[i];
        }
      }
    }
  }

  /** One method passes exactly when the walk had passed, its name is new and it is well declared. */
  lemma AddFunctionSucceedIff(fold: string -> string, w: Walk<MethodMap>, f: FunctionDeclaration)
    ensures AddFunction(fold, w, f).success <==>
      w.success && !HasKey(fold, w.value, f.identifier.text) && FunctionWellDeclared(fold, f)
  {
  }

  /**
    The methods pass exactly when their names are new and pairwise distinct
    and no method has a clashing parameter or local.
   */
  lemma {:induction false} FunctionsSucceedIff(fold: string -> string, w: Walk<MethodMap>, fs: seq<FunctionDeclaration>)
    ensures AddFunctions(fold, w, fs).success <==>
      && w.success
      && DistinctIdentifiers(fold, w.value.entries.Keys, MethodNames(fs))
      && AllWellDeclared(fold, fs)
    decreases |fs|
  {
    if fs != [] {
      var init := fs[..|fs| - 1];
      var last := fs[|fs| - 1];
      FunctionsSucceedIff(fold, w, init);
      var prev := AddFunctions(fold, w, init);
      assert AddFunctions(fold, w, fs) == AddFunction(fold, prev, last);
      AddFunctionSucceedIff(fold, prev, last);
      assert HasKey(fold, prev.value, last.identifier.text) <==>
             fold(last.identifier.text) in w.value.entries.Keys + IdentifierKeys(fold, MethodNames(init));
      assert DistinctIdentifiers(fold, w.value.entries.Keys, MethodNames(fs)) <==>
        DistinctIdentifiers(fold, w.value.entries.Keys, MethodNames(init)) &&
        fold(last.identifier.text) !in w.value.entries.Keys + IdentifierKeys(fold, MethodNames(init)) by {
        MethodNamesPrefix(fs);
        DistinctIdentifiersLast(fold, w.value.entries.Keys, MethodNames(fs));
      }
      AllWellDeclaredLast(fold, fs);
    }
  }

  /**
    The duplicate-method reports after the first `n` are one per clash, in
    order, each naming the later method and the kept method's line.
   */
  ghost predicate ReportsDuplicateFunctions(fold: string -> string, n: nat, r: Walk<MethodMap>, clashes: seq<Identifier>)
  {
    && n <= |r.diagnostics|
    && var reported := OfKind(DuplicateFunction, r.diagnostics[n..]);
    && |reported| == |clashes|
    && forall t :: 0 <= t < |clashes| ==>
      && fold(clashes[t].text) in r.value.entries
      && reported[t] == Diagnostic(DuplicateFunction, clashes[t].text, clashes[t].line,
                                   r.value.entries[fold(clashes[t].text)].functionDeclaration.identifier.line)
  }

  lemma DuplicateFunctionStep(fold: string -> string, n: nat, prev: Walk<MethodMap>, f: FunctionDeclaration, clashes: seq<Identifier>)
    requires ReportsDuplicateFunctions(fold, n, prev, clashes)
    requires HasKey(fold, prev.value, f.identifier.text)
    ensures ReportsDuplicateFunctions(fold, n, AddFunction(fold, prev, f), clashes + [f.identifier])
  {
    LoudFunctionStep(fold, n, prev, AddFunction(fold, prev, f), f.identifier, clashes);
  }

  /** A turn that keeps the map and reports `id` against the kept method adds `id` to the duplicate-method reports. */
  lemma LoudFunctionStep(fold: string -> string, n: nat, prev: Walk<MethodMap>, r: Walk<MethodMap>,
                         id: Identifier, clashes: seq<Identifier>)
    requires ReportsDuplicateFunctions(fold, n, prev, clashes)
    requires fold(id.text) in prev.value.entries && r.value == prev.value
    requires r.diagnostics == prev.diagnostics +
      [Diagnostic(DuplicateFunction, id.text, id.line, prev.value.entries[fold(id.text)].functionDeclaration.identifier.line)]
    ensures ReportsDuplicateFunctions(fold, n, r, clashes + [id])
  {
    var d := r.diagnostics[|r.diagnostics| - 1];
    var before := OfKind(DuplicateFunction, prev.diagnostics[n..]);
    var reported := OfKind(DuplicateFunction, r.diagnostics[n..]);
    assert r.diagnostics[n..] == prev.diagnostics[n..] + [d];
    OfKindAppend(DuplicateFunction, prev.diagnostics[n..], [d]);
    assert [d][..0] == [];
    assert reported == before + [d];
    var cl := clashes + [id];
    forall t | 0 <= t < |cl|
      ensures fold(cl[t].text) in r.value.entries
      ensures reported[t] == Diagnostic(DuplicateFunction, cl[t].text, cl[t].line,
                                        r.value.entries[fold(cl[t].text)].functionDeclaration.identifier.line)
    {
      if t < |clashes| {
        assert cl[t] == clashes[t] && reported[t] == before[t];
      } else {
        assert cl[t] == id && reported[t] == d;
      }
    }
  }

  lemma FreshFunctionStep(fold: string -> string, n: nat, prev: Walk<MethodMap>, f: FunctionDeclaration, clashes: seq<Identifier>)
    requires ReportsDuplicateFunctions(fold, n, prev, clashes)
    requires !HasKey(fold, prev.value, f.identifier.text)
    ensures ReportsDuplicateFunctions(fold, n, AddFunction(fold, prev, f), clashes)
  {
    var ns := FunctionNamespace(fold, f).diagnostics;
    OfKindNone(DuplicateFunction, ns);
    assert AddFunction(fold, prev, f).diagnostics == prev.diagnostics + ns;
    QuietFunctionStep(fold, n, prev, AddFunction(fold, prev, f), ns, clashes);
  }

  /** A turn that keeps every entry and reports no duplicate method keeps the duplicate-method reports. */
  lemma QuietFunctionStep(fold: string -> string, n: nat, prev: Walk<MethodMap>, r: Walk<MethodMap>,
                          added: seq<Diagnostic>, clashes: seq<Identifier>)
    requires ReportsDuplicateFunctions(fold, n, prev, clashes)
    requires r.diagnostics == prev.diagnostics + added && OfKind(DuplicateFunction, added) == []
    requires forall k :: k in prev.value.entries ==> k in r.value.entries && r.value.entries[k] == prev.value.entries[k]
    ensures ReportsDuplicateFunctions(fold, n, r, clashes)
  {
    assert r.diagnostics[n..] == prev.diagnostics[n..] + added;
    OfKindAppend(DuplicateFunction, prev.diagnostics[n..], added);
  }

  lemma {:induction false} AddFunctionsReportDuplicates(fold: string -> string, w: Walk<MethodMap>, fs: seq<FunctionDeclaration>)
    ensures ReportsDuplicateFunctions(fold, |w.diagnostics|, AddFunctions(fold, w, fs),
                                      CollidingIdentifiers(fold, w.value.entries.Keys, MethodNames(fs)))
    decreases |fs|
  {
    var taken := w.value.entries.Keys;
    if fs == [] {
      assert MethodNames(fs) == [];
      assert w.diagnostics[|w.diagnostics|..] == [];
    } else {
      var init := fs[..|fs| - 1];
      var last := fs[|fs| - 1];
      AddFunctionsReportDuplicates(fold, w, init);
      var prev := AddFunctions(fold, w, init);
      assert AddFunctions(fold, w, fs) == AddFunction(fold, prev, last);
      MethodNamesPrefix(fs);
      CollidingIdentifiersLast(fold, taken, MethodNames(fs));
      if HasKey(fold, prev.value, last.identifier.text) {
        DuplicateFunctionStep(fold, |w.diagnostics|, prev, last, CollidingIdentifiers(fold, taken, MethodNames(init)));
      } else {
        FreshFunctionStep(fold, |w.diagnostics|, prev, last, CollidingIdentifiers(fold, taken, MethodNames(init)));
      }
    }
  }

  /**
    One report per redeclared method, in discovery order (lines 41-46): the
    duplicate-method reports the loop adds are exactly the methods whose name
    is already taken, each tagged with its own line and naming the line of
    the method that was kept.
   */
  lemma AddFunctionsReports(fold: string -> string, w: Walk<MethodMap>, fs: seq<FunctionDeclaration>)
    ensures var r := AddFunctions(fold, w, fs);
      var reported := OfKind(DuplicateFunction, r.diagnostics[|w.diagnostics|..]);
      var clashes := CollidingIdentifiers(fold, w.value.entries.Keys, MethodNames(fs));
      && |reported| == |clashes|
      && forall t :: 0 <= t < |clashes| ==>
        && fold(clashes[t].text) in r.value.entries
        && reported[t] == Diagnostic(DuplicateFunction, clashes[t].text, clashes[t].line,
                                     r.value.entries[fold(clashes[t].text)].functionDeclaration.identifier.line)
  {
    AddFunctionsReportDuplicates(fold, w, fs);
  }

  /** Methods report only duplicate methods and variables, never a duplicate class. */
  lemma {:induction false} MethodsNeverReportClasses(fold: string -> string, w: Walk<MethodMap>, fs: seq<FunctionDeclaration>)
    ensures var r := AddFunctions(fold, w, fs);
      OfKind(DuplicateClass, r.diagnostics[|w.diagnostics|..]) == []
    decreases |fs|
  {
    var n := |w.diagnostics|;
    if fs == [] {
      assert w.diagnostics[n..] == [];
    } else {
      var init := fs[..|fs| - 1];
      var last := fs[|fs| - 1];
      MethodsNeverReportClasses(fold, w, init);
      var prev := AddFunctions(fold, w, init);
      var r := AddFunction(fold, prev, last);
      assert AddFunctions(fold, w, fs) == r;
      MethodNeverReportsClasses(fold, prev, last);
      OfKindNoneExtend(DuplicateClass, w.diagnostics, prev.diagnostics, r.diagnostics);
    }
  }

  lemma MethodNeverReportsClasses(fold: string -> string, w: Walk<MethodMap>, f: FunctionDeclaration)
    ensures OfKind(DuplicateClass, AddFunction(fold, w, f).diagnostics[|w.diagnostics|..]) == []
  {
    var added := AddFunction(fold, w, f).diagnostics[|w.diagnostics|..];
    if !HasKey(fold, w.value, f.identifier.text) {
      assert added == FunctionNamespace(fold, f).diagnostics;
    }
    OfKindNone(DuplicateClass, added);
  }

  // --------------------------------------------------------------- classes

  /** The names of the program's classes, in declaration order. */
  function ClassNames(cs: seq<ClassDeclaration>): (ids: seq<Identifier>)
    ensures |ids| == |cs|
    ensures forall i :: 0 <= i < |cs| ==> ids[i] == cs[i].identifier
  {
    seq(|cs|, i requires 0 <= i < |cs| => cs[i].identifier)
  }

  lemma ClassNamesPrefix(cs: seq<ClassDeclaration>)
    requires cs != []
    ensures ClassNames(cs[..|cs| - 1]) == ClassNames(cs)[..|cs| - 1]
  {
  }

  /** A class passes: its method names are pairwise distinct and no method has a clashing parameter or local. */
  ghost predicate ClassWellDeclared(fold: string -> string, c: ClassDeclaration)
  {
    && DistinctIdentifiers(fold, {}, MethodNames(c.classBlock.functionList))
    && AllWellDeclared(fold, c.classBlock.functionList)
  }

  /**
    Lines 27-63 for a class that was newly registered: its fields and its
    methods. The flag and diagnostics are those of its methods alone.
   */
  function ClassEntry(fold: string -> string, c: ClassDeclaration): (r: Walk<ClassSymbolTable>)
    ensures r.value.classDeclaration == c
    ensures r.success <==> NoFatal(r.diagnostics)
    ensures r.success <==> ClassWellDeclared(fold, c)
  {
    var start: Walk<MethodMap> := Walk(Empty(), true, []);
    var methods := AddFunctions(fold, start, c.classBlock.functionList);
    FunctionsSucceedIff(fold, start, c.classBlock.functionList);
    assert start.value.entries.Keys == {};
    assert methods.diagnostics[0..] == methods.diagnostics;
    var fields := AddFields(fold, Empty(), c.classBlock.variableList);
    Walk(ClassSymbolTable(c, fields, methods.value), methods.success, methods.diagnostics)
  }

  /**
    Fields and methods live in separate maps and fields are never checked: a
    class's fields change neither its flag, nor its diagnostics, nor its
    methods, so a field may share its name with a method.
   */
  lemma FieldsNeverReported(fold: string -> string, c: ClassDeclaration, fields: seq<VariableDeclaration>)
    ensures var c' := c.(classBlock := c.classBlock.(variableList := fields));
      && ClassEntry(fold, c').success == ClassEntry(fold, c).success
      && ClassEntry(fold, c').diagnostics == ClassEntry(fold, c).diagnostics
      && ClassEntry(fold, c').value.functionSymbols == ClassEntry(fold, c).value.functionSymbols
  {
  }

  /**
    The builder never reads a class's parent name (parser.h:59-65 stores it,
    symbol_table.cpp does not look at it): changing it changes nothing but
    the declaration the entry refers to.
   */
  lemma ParentNeverRead(fold: string -> string, c: ClassDeclaration, q: Option<string>)
    ensures var c' := c.(parentId := q);
      && ClassEntry(fold, c').success == ClassEntry(fold, c).success
      && ClassEntry(fold, c').diagnostics == ClassEntry(fold, c).diagnostics
      && ClassEntry(fold, c').value.functionSymbols == ClassEntry(fold, c).value.functionSymbols
      && ClassEntry(fold, c').value.variables == ClassEntry(fold, c).value.variables
  {
  }

  /**
    The duplicate-method reports a registered class makes (lines 41-46) are
    exactly its redeclared methods, in order, each tagged with its own
    spelling and line and naming the line of the method that was kept.
   */
  lemma ClassEntryMethodReports(fold: string -> string, c: ClassDeclaration)
    ensures var e := ClassEntry(fold, c);
      var reported := OfKind(DuplicateFunction, e.diagnostics);
      var clashes := CollidingIdentifiers(fold, {}, MethodNames(c.classBlock.functionList));
      && |reported| == |clashes|
      && forall t :: 0 <= t < |clashes| ==>
        && fold(clashes[t].text) in e.value.functionSymbols.entries
        && reported[t] == Diagnostic(DuplicateFunction, clashes[t].text, clashes[t].line,
                                     e.value.functionSymbols.entries[fold(clashes[t].text)].functionDeclaration.identifier.line)
  {
    var start: Walk<MethodMap> := Walk(Empty(), true, []);
    assert start.value.entries.Keys == {};
    AddFunctionsReports(fold, start, c.classBlock.functionList);
    var ds := AddFunctions(fold, start, c.classBlock.functionList).diagnostics;
    assert ds[0..] == ds;
  }

  /**
    What a registered class's entry holds: each method name maps to the
    entry of the first method of that name, each field name to the last
    group declaring it.
   */
  lemma ClassEntryContents(fold: string -> string, c: ClassDeclaration)
    ensures var e := ClassEntry(fold, c).value;
      var fs := c.classBlock.functionList;
      && e.functionSymbols.entries.Keys == IdentifierKeys(fold, MethodNames(fs))
      && forall i :: 0 <= i < |fs| && FirstIdentifier(fold, {}, MethodNames(fs), i) ==>
           fold(fs[i].identifier.text) in e.functionSymbols.entries &&
           e.functionSymbols.entries[fold(fs[i].identifier.text)] == MethodEntry(fold, fs[i])
    ensures var e := ClassEntry(fold, c).value;
      var groups := c.classBlock.variableList;
      && (forall k :: k in e.variables.entries <==> exists n :: 0 <= n < |groups| && Declares(fold, groups[n], k))
      && forall n, k :: 0 <= n < |groups| && LastDeclaring(fold, groups, n, k) ==>
           k in e.variables.entries && e.variables.entries[k] == groups[n]
  {
    var start: Walk<MethodMap> := Walk(Empty(), true, []);
    assert start.value.entries.Keys == {};
    FunctionsFirstWins(fold, start, c.classBlock.functionList);
    AddFieldsLastWins(fold, Empty(), c.classBlock.variableList);
  }

  /**
    Lines 14-25 and the rest of the loop body for one class. A class whose
    name is taken is reported, under the kept class's spelling and line, and
    skipped: neither the table nor the flag change. Otherwise its entry is put.
   */
  function AddClass(fold: string -> string, w: Walk<SymbolTable>, c: ClassDeclaration): (r: Walk<SymbolTable>)
    ensures HasKey(fold, w.value, c.identifier.text) ==>
      var first := Item(fold, w.value, c.identifier.text).classDeclaration;
      && r.value == w.value
      && r.success == w.success
      && r.diagnostics == w.diagnostics + [Diagnostic(DuplicateClass, first.identifier.text, c.identifier.line,
                                                      first.identifier.line)]
    ensures !HasKey(fold, w.value, c.identifier.text) ==>
      && r.value.entries.Keys == w.value.entries.Keys + {fold(c.identifier.text)}
      && Item(fold, r.value, c.identifier.text).classDeclaration == c
      && (r.success <==> w.success && ClassWellDeclared(fold, c))
    ensures forall k :: k in w.value.entries ==> k in r.value.entries && r.value.entries[k] == w.value.entries[k]
    ensures |w.diagnostics| <= |r.diagnostics| && r.diagnostics[..|w.diagnostics|] == w.diagnostics
    ensures r.success <==> w.success && NoFatal(r.diagnostics[|w.diagnostics|..])
  {
    var text := c.identifier.text;
    if HasKey(fold, w.value, text) then
      var first := Item(fold, w.value, text).classDeclaration;
      var d := Diagnostic(DuplicateClass, first.identifier.text, c.identifier.line, first.identifier.line);
      assert (w.diagnostics + [d])[|w.diagnostics|..] == [d];
      Walk(w.value, w.success, w.diagnostics + [d])
    else
      var e := ClassEntry(fold, c);
      assert (w.diagnostics + e.diagnostics)[|w.diagnostics|..] == e.diagnostics;
      Walk(Put(fold, w.value, text, e.value), w.success && e.success, w.diagnostics + e.diagnostics)
  }

  /** The loop at lines 13-64: every class of the program, in order; a skipped class does not stop the walk. */
  function AddClasses(fold: string -> string, w: Walk<SymbolTable>, cs: seq<ClassDeclaration>): (r: Walk<SymbolTable>)
    ensures forall k :: k in w.value.entries ==> k in r.value.entries && r.value.entries[k] == w.value.entries[k]
    ensures r.value.entries.Keys == w.value.entries.Keys + IdentifierKeys(fold, ClassNames(cs))
    ensures |w.diagnostics| <= |r.diagnostics| && r.diagnostics[..|w.diagnostics|] == w.diagnostics
    ensures r.success <==> w.success && NoFatal(r.diagnostics[|w.diagnostics|..])
    decreases |cs|
  {
    if cs == [] then
      assert IdentifierKeys(fold, ClassNames(cs)) == {};
      w
    else
      var init := cs[..|cs| - 1];
      var prev := AddClasses(fold, w, init);
      var r := AddClass(fold, prev, cs[|cs| - 1]);
      var key := fold(cs[|cs| - 1].identifier.text);
      assert r.value.entries.Keys == prev.value.entries.Keys + {key};
      assert IdentifierKeys(fold, ClassNames(cs)) == IdentifierKeys(fold, ClassNames(init)) + {key} by {
        ClassNamesPrefix(cs);
        IdentifierKeysLast(fold, ClassNames(cs));
      }
      ExtendReports(w.diagnostics, prev.diagnostics, r.diagnostics);
      r
  }

  /** A class that is new to the table is stored with the entry built from it alone. */
  lemma AddClassNew(fold: string -> string, w: Walk<SymbolTable>, c: ClassDeclaration)
    requires !HasKey(fold, w.value, c.identifier.text)
    ensures fold(c.identifier.text) in AddClass(fold, w, c).value.entries
    ensures AddClass(fold, w, c).value.entries[fold(c.identifier.text)] == ClassEntry(fold, c).value
    ensures AddClass(fold, w, c).diagnostics == w.diagnostics + ClassEntry(fold, c).diagnostics
  {
  }

  lemma {:induction false} ClassesFirstWinsAt(fold: string -> string, w: Walk<SymbolTable>, cs: seq<ClassDeclaration>, i: int)
    requires 0 <= i < |cs| && FirstIdentifier(fold, w.value.entries.Keys, ClassNames(cs), i)
    ensures fold(cs[i].identifier.text) in AddClasses(fold, w, cs).value.entries
    ensures AddClasses(fold, w, cs).value.entries[fold(cs[i].identifier.text)] == ClassEntry(fold, cs[i]).value
    decreases |cs|
  {
    var init := cs[..|cs| - 1];
    var prev := AddClasses(fold, w, init);
    assert AddClasses(fold, w, cs) == AddClass(fold, prev, cs[|cs| - 1]);
    ClassNamesPrefix(cs);
    if i < |cs| - 1 {
      assert cs[i] == init[i];
      FirstIdentifierPrefix(fold, w.value.entries.Keys, ClassNames(cs), i);
      ClassesFirstWinsAt(fold, w, init, i);
      assert fold(cs[i].identifier.text) in prev.value.entries;
    } else {
      FirstIdentifierKeys(fold, w.value.entries.Keys, ClassNames(cs), i);
      assert ClassNames(cs)[..i] == ClassNames(init);
      assert !HasKey(fold, prev.value, cs[i].identifier.text);
      AddClassNew(fold, prev, cs[i]);
    }
  }

  /**
    First class wins: the entry under each class name is the one built from
    the first class of that name; later classes of the name add nothing.
   */
  lemma ClassesFirstWins(fold: string -> string, w: Walk<SymbolTable>, cs: seq<ClassDeclaration>)
    ensures var r := AddClasses(fold, w, cs);
      forall i :: 0 <= i < |cs| && FirstIdentifier(fold, w.value.entries.Keys, ClassNames(cs), i) ==>
        fold(cs[i].identifier.text) in r.value.entries &&
        r.value.entries[fold(cs[i].identifier.text)] == ClassEntry(fold, cs[i]).value
  {
    forall i | 0 <= i < |cs| && FirstIdentifier(fold, w.value.entries.Keys, ClassNames(cs), i)
      ensures fold(cs[i].identifier.text) in AddClasses(fold, w, cs).value.entries
      ensures AddClasses(fold, w, cs).value.entries[fold(cs[i].identifier.text)] == ClassEntry(fold, cs[i]).value
    {
      ClassesFirstWinsAt(fold, w, cs, i);
    }
  }

  /** Every class that is the first of its name passes. Later classes of a taken name are never examined. */
  ghost predicate FirstClassesWellDeclared(fold: string -> string, taken: set<string>, cs: seq<ClassDeclaration>)
  {
    forall i :: 0 <= i < |cs| && FirstIdentifier(fold, taken, ClassNames(cs), i) ==> ClassWellDeclared(fold, cs[i])
  }

  lemma FirstClassesWellDeclaredLast(fold: string -> string, taken: set<string>, cs: seq<ClassDeclaration>)
    requires cs != []
    ensures var init := cs[..|cs| - 1];
      var last := cs[|cs| - 1];
      FirstClassesWellDeclared(fold, taken, cs) <==>
        && FirstClassesWellDeclared(fold, taken, init)
        && (fold(last.identifier.text) !in taken + IdentifierKeys(fold, ClassNames(init)) ==> ClassWellDeclared(fold, last))
  {
    var init := cs[..|cs| - 1];
    var names := ClassNames(cs);
    ClassNamesPrefix(cs);
    IdentifierKeysLast(fold, names);
    FirstIdentifierKeys(fold, taken, names, |cs| - 1);
    assert names[..|cs| - 1] == ClassNames(init);
    forall i | 0 <= i < |init|
      ensures FirstIdentifier(fold, taken, names, i) <==> FirstIdentifier(fold, taken, ClassNames(init), i)
      ensures cs[i] == init[i]
    {
      FirstIdentifierPrefix(fold, taken, names, i);
    }
  }

  /** The class walk keeps its flag exactly when every class that is first of its name passes. */
  lemma {:induction false} ClassesSucceedIff(fold: string -> string, w: Walk<SymbolTable>, cs: seq<ClassDeclaration>)
    ensures AddClasses(fold, w, cs).success <==> w.success && FirstClassesWellDeclared(fold, w.value.entries.Keys, cs)
    decreases |cs|
  {
    if cs != [] {
      var init := cs[..|cs| - 1];
      var last := cs[|cs| - 1];
      ClassesSucceedIff(fold, w, init);
      var prev := AddClasses(fold, w, init);
      assert AddClasses(fold, w, cs) == AddClass(fold, prev, last);
      assert HasKey(fold, prev.value, last.identifier.text) <==>
             fold(last.identifier.text) in w.value.entries.Keys + IdentifierKeys(fold, ClassNames(init));
      FirstClassesWellDeclaredLast(fold, w.value.entries.Keys, cs);
    }
  }

  // ------------------------------------------------------------ the build

  /**
    The duplicate-class reports after the first `n` are one per clash, in
    order, each under the kept class's spelling and line and tagged with the
    later class's line.
   */
  ghost predicate ReportsDuplicateClasses(fold: string -> string, n: nat, r: Walk<SymbolTable>, clashes: seq<Identifier>)
  {
    && n <= |r.diagnostics|
    && var reported := OfKind(DuplicateClass, r.diagnostics[n..]);
    && |reported| == |clashes|
    && forall t :: 0 <= t < |clashes| ==>
      && fold(clashes[t].text) in r.value.entries
      && var kept := r.value.entries[fold(clashes[t].text)].classDeclaration.identifier;
         reported[t] == Diagnostic(DuplicateClass, kept.text, clashes[t].line, kept.line)
  }

  lemma DuplicateClassStep(fold: string -> string, n: nat, prev: Walk<SymbolTable>, c: ClassDeclaration, clashes: seq<Identifier>)
    requires ReportsDuplicateClasses(fold, n, prev, clashes)
    requires HasKey(fold, prev.value, c.identifier.text)
    ensures ReportsDuplicateClasses(fold, n, AddClass(fold, prev, c), clashes + [c.identifier])
  {
    LoudClassStep(fold, n, prev, AddClass(fold, prev, c), c.identifier, clashes);
  }

  /** A turn that keeps the table and reports `id` under the kept class adds `id` to the duplicate-class reports. */
  lemma LoudClassStep(fold: string -> string, n: nat, prev: Walk<SymbolTable>, r: Walk<SymbolTable>,
                      id: Identifier, clashes: seq<Identifier>)
    requires ReportsDuplicateClasses(fold, n, prev, clashes)
    requires fold(id.text) in prev.value.entries && r.value == prev.value
    requires var kept := prev.value.entries[fold(id.text)].classDeclaration.identifier;
      r.diagnostics == prev.diagnostics + [Diagnostic(DuplicateClass, kept.text, id.line, kept.line)]
    ensures ReportsDuplicateClasses(fold, n, r, clashes + [id])
  {
    var d := r.diagnostics[|r.diagnostics| - 1];
    var before := OfKind(DuplicateClass, prev.diagnostics[n..]);
    var reported := OfKind(DuplicateClass, r.diagnostics[n..]);
    assert r.diagnostics[n..] == prev.diagnostics[n..] + [d];
    OfKindAppend(DuplicateClass, prev.diagnostics[n..], [d]);
    assert [d][..0] == [];
    assert reported == before + [d];
    var cl := clashes + [id];
    forall t | 0 <= t < |cl|
      ensures fold(cl[t].text) in r.value.entries
      ensures var kept := r.value.entries[fold(cl[t].text)].classDeclaration.identifier;
        reported[t] == Diagnostic(DuplicateClass, kept.text, cl[t].line, kept.line)
    {
      if t < |clashes| {
        assert cl[t] == clashes[t] && reported[t] == before[t];
      } else {
        assert cl[t] == id && reported[t] == d;
      }
    }
  }

  lemma FreshClassStep(fold: string -> string, n: nat, prev: Walk<SymbolTable>, c: ClassDeclaration, clashes: seq<Identifier>)
    requires ReportsDuplicateClasses(fold, n, prev, clashes)
    requires !HasKey(fold, prev.value, c.identifier.text)
    ensures ReportsDuplicateClasses(fold, n, AddClass(fold, prev, c), clashes)
  {
    ClassEntryNeverReportsClasses(fold, c);
    AddClassNew(fold, prev, c);
    QuietClassStep(fold, n, prev, AddClass(fold, prev, c), ClassEntry(fold, c).diagnostics, clashes);
  }

  /** A turn that keeps every entry and reports no duplicate class keeps the duplicate-class reports. */
  lemma QuietClassStep(fold: string -> string, n: nat, prev: Walk<SymbolTable>, r: Walk<SymbolTable>,
                       added: seq<Diagnostic>, clashes: seq<Identifier>)
    requires ReportsDuplicateClasses(fold, n, prev, clashes)
    requires r.diagnostics == prev.diagnostics + added && OfKind(DuplicateClass, added) == []
    requires forall k :: k in prev.value.entries ==> k in r.value.entries && r.value.entries[k] == prev.value.entries[k]
    ensures ReportsDuplicateClasses(fold, n, r, clashes)
  {
    assert r.diagnostics[n..] == prev.diagnostics[n..] + added;
    OfKindAppend(DuplicateClass, prev.diagnostics[n..], added);
  }

  /** A class's own entry reports duplicate methods and variables only. */
  lemma ClassEntryNeverReportsClasses(fold: string -> string, c: ClassDeclaration)
    ensures OfKind(DuplicateClass, ClassEntry(fold, c).diagnostics) == []
  {
    var start: Walk<MethodMap> := Walk(Empty(), true, []);
    MethodsNeverReportClasses(fold, start, c.classBlock.functionList);
    var ds := AddFunctions(fold, start, c.classBlock.functionList).diagnostics;
    assert ds[0..] == ds;
  }

  lemma {:induction false} AddClassesReportDuplicates(fold: string -> string, w: Walk<SymbolTable>, cs: seq<ClassDeclaration>)
    ensures ReportsDuplicateClasses(fold, |w.diagnostics|, AddClasses(fold, w, cs),
                                    CollidingIdentifiers(fold, w.value.entries.Keys, ClassNames(cs)))
    decreases |cs|
  {
    var taken := w.value.entries.Keys;
    if cs == [] {
      assert ClassNames(cs) == [];
      assert w.diagnostics[|w.diagnostics|..] == [];
    } else {
      var init := cs[..|cs| - 1];
      var last := cs[|cs| - 1];
      AddClassesReportDuplicates(fold, w, init);
      var prev := AddClasses(fold, w, init);
      assert AddClasses(fold, w, cs) == AddClass(fold, prev, last);
      ClassNamesPrefix(cs);
      CollidingIdentifiersLast(fold, taken, ClassNames(cs));
      if HasKey(fold, prev.value, last.identifier.text) {
        DuplicateClassStep(fold, |w.diagnostics|, prev, last, CollidingIdentifiers(fold, taken, ClassNames(init)));
      } else {
        FreshClassStep(fold, |w.diagnostics|, prev, last, CollidingIdentifiers(fold, taken, ClassNames(init)));
      }
    }
  }

  /**
    One report per redeclared class, in discovery order (lines 17-22): the
    duplicate-class reports the loop adds are exactly the classes whose name
    is already taken, each under the kept class's spelling and line and
    tagged with its own line.
   */
  lemma AddClassesReports(fold: string -> string, w: Walk<SymbolTable>, cs: seq<ClassDeclaration>)
    ensures var r := AddClasses(fold, w, cs);
      var reported := OfKind(DuplicateClass, r.diagnostics[|w.diagnostics|..]);
      var clashes := CollidingIdentifiers(fold, w.value.entries.Keys, ClassNames(cs));
      && |reported| == |clashes|
      && forall t :: 0 <= t < |clashes| ==>
        && fold(clashes[t].text) in r.value.entries
        && var kept := r.value.entries[fold(clashes[t].text)].classDeclaration.identifier;
           reported[t] == Diagnostic(DuplicateClass, kept.text, clashes[t].line, kept.line)
  {
    AddClassesReportDuplicates(fold, w, cs);
  }

  /** What `build_symbol_table` yields: the table or NULL, and what it wrote to the error stream. */
  datatype BuildResult = BuildResult(table: Option<SymbolTable>, diagnostics: seq<Diagnostic>)

  /** A program passes when every class that is the first of its name passes. */
  ghost predicate ProgramWellDeclared(fold: string -> string, p: Program)
  {
    FirstClassesWellDeclared(fold, {}, p.classList)
  }

  /** The whole walk of lines 9-64, starting from an empty table with the flag set. */
  function Analyse(fold: string -> string, p: Program): Walk<SymbolTable>
  {
    AddClasses(fold, Walk(Empty(), true, []), p.classList)
  }

  /**
    `build_symbol_table`: the table is returned exactly when no method or
    variable clashed anywhere; a duplicate class alone never withholds it.
   */
  function BuildSymbolTable(fold: string -> string, p: Program): (r: BuildResult)
    ensures r.table.Some? <==> NoFatal(r.diagnostics)
    ensures r.table.Some? <==> ProgramWellDeclared(fold, p)
    ensures r.table.Some? ==> r.table.value.entries.Keys == IdentifierKeys(fold, ClassNames(p.classList))
  {
    var w := Analyse(fold, p);
    var start: Walk<SymbolTable> := Walk(Empty(), true, []);
    assert start.value.entries.Keys == {};
    assert w.diagnostics[0..] == w.diagnostics;
    ClassesSucceedIff(fold, start, p.classList);
    BuildResult(if w.success then Some(w.value) else None, w.diagnostics)
  }

  /**
    The table the walk builds, whether or not it is returned, holds under
    each class name the entry of the first class of that name.
   */
  lemma BuildKeepsFirstClass(fold: string -> string, p: Program)
    ensures var t := Analyse(fold, p).value;
      var cs := p.classList;
      forall i :: 0 <= i < |cs| && FirstIdentifier(fold, {}, ClassNames(cs), i) ==>
        fold(cs[i].identifier.text) in t.entries &&
        t.entries[fold(cs[i].identifier.text)] == ClassEntry(fold, cs[i]).value
    ensures BuildSymbolTable(fold, p).table.Some? ==> BuildSymbolTable(fold, p).table.value == Analyse(fold, p).value
  {
    var start: Walk<SymbolTable> := Walk(Empty(), true, []);
    assert start.value.entries.Keys == {};
    ClassesFirstWins(fold, start, p.classList);
  }
}

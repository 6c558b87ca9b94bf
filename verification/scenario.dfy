/**
  A worked program: class `Animal` with a field `name: Char` and a method
  `speak` whose one local is `sound: Char`, followed by a second class spelled
  `animal`. Whatever the case fold, as long as it identifies the two class
  names and keeps `speak` and `sound` apart, the build succeeds, reports the
  second class once, and keeps only the first. Then any class declared three
  times in a row, which is reported twice.
 */
module Scenarios {
  import opened Wrappers
  import opened Ast
  import opened InsensitiveMaps
  import opened Diagnostics
  import opened Namespaces
  import opened SymbolTables

  function Speak(): FunctionDeclaration
  {
    FunctionDeclaration(Identifier("speak", 4), Char, [], FunctionBlock([VariableDeclaration([Identifier("sound", 5)], Char)]))
  }

  function FirstAnimal(): ClassDeclaration
  {
    ClassDeclaration(Identifier("Animal", 1), None, ClassBlock([VariableDeclaration([Identifier("name", 2)], Char)], [Speak()]))
  }

  function SecondAnimal(): ClassDeclaration
  {
    ClassDeclaration(Identifier("animal", 8), None, ClassBlock([], []))
  }

  function Zoo(): Program
  {
    Program("zoo", [FirstAnimal(), SecondAnimal()])
  }

  lemma SpeakNamespace(fold: string -> string)
    requires fold("speak") != fold("sound")
    ensures FunctionNamespace(fold, Speak()).success
    ensures FunctionNamespace(fold, Speak()).value.entries.Keys == {fold("speak"), fold("sound")}
  {
    var f := Speak();
    var ds := Declared(f);
    assert GroupBindings(f.parameterList) == [];
    assert GroupBindings(f.block.variableList) == [] + Bindings(f.block.variableList[0]);
    assert ds == [Binding(Identifier("sound", 5), Char)];
    assert FirstAt(fold, {fold("speak")}, ds, 0);
    assert Keys(fold, ds) == {fold("sound")} by {
      KeysLast(fold, ds);
      assert ds[..0] == [];
    }
  }

  /** The duplicate class is reported once, against the first spelling and line, and does not fail the build. */
  lemma ZooBuild(fold: string -> string)
    requires fold("Animal") == fold("animal")
    requires fold("speak") != fold("sound")
    ensures var r := BuildSymbolTable(fold, Zoo());
      && r.table.Some?
      && r.diagnostics == [Diagnostic(DuplicateClass, "Animal", 8, 1)]
      && r.table.value.entries.Keys == {fold("Animal")}
      && var e := r.table.value.entries[fold("Animal")];
         && e.classDeclaration == FirstAnimal()
         && e.variables.entries.Keys == {fold("name")}
         && e.functionSymbols.entries.Keys == {fold("speak")}
         && e.functionSymbols.entries[fold("speak")].variables.entries.Keys == {fold("speak"), fold("sound")}
  {
    SpeakNamespace(fold);
    var start: Walk<SymbolTable> := Walk(Empty(), true, []);
    var c1 := FirstAnimal();
    var e1 := ClassEntry(fold, c1);
    assert [c1, SecondAnimal()][..1] == [c1];
    assert [c1][..0] == [];
    assert AddClasses(fold, start, []) == start;
    var w1 := AddClasses(fold, start, [c1]);
    assert w1 == AddClass(fold, start, c1);
    var mstart: Walk<MethodMap> := Walk(Empty(), true, []);
    assert AddFunctions(fold, mstart, []) == mstart;
    var methods := AddFunctions(fold, mstart, [Speak()]);
    assert [Speak()][..0] == [];
    assert methods == AddFunction(fold, Walk(Empty(), true, []), Speak());
    assert e1.diagnostics == [];
    assert w1.diagnostics == [];
    assert w1.success;
    var fields := e1.value.variables;
    assert fields == AddFields(fold, Empty(), c1.classBlock.variableList);
    assert fields.entries.Keys == {fold("name")};
  }

  /** A walk whose duplicate-class reports are two clashes of `id`, kept under `id` itself. */
  lemma TwoClassReports(fold: string -> string, r: Walk<SymbolTable>, id: Identifier)
    requires ReportsDuplicateClasses(fold, 0, r, [id, id])
    requires fold(id.text) in r.value.entries && r.value.entries[fold(id.text)].classDeclaration.identifier == id
    ensures var d := Diagnostic(DuplicateClass, id.text, id.line, id.line);
      OfKind(DuplicateClass, r.diagnostics) == [d, d]
  {
    var reported := OfKind(DuplicateClass, r.diagnostics[0..]);
    assert r.diagnostics[0..] == r.diagnostics;
    assert [id, id][0] == id && [id, id][1] == id;
  }

  /** The clashes among three declarations of one class are the second and the third. */
  lemma ThriceClashes(fold: string -> string, c: ClassDeclaration)
    ensures var start: Walk<SymbolTable> := Walk(Empty(), true, []);
      ReportsDuplicateClasses(fold, 0, AddClasses(fold, start, [c, c, c]), [c.identifier, c.identifier])
  {
    var cs := [c, c, c];
    var id := c.identifier;
    var k := fold(id.text);
    var start: Walk<SymbolTable> := Walk(Empty(), true, []);
    assert ClassNames(cs) == [id, id, id];
    assert CollidingIdentifiers(fold, {k}, [id]) == [id] by {
      assert [id][1..] == [];
    }
    assert CollidingIdentifiers(fold, {k}, [id, id]) == [id, id] by {
      assert [id, id][1..] == [id];
    }
    assert CollidingIdentifiers(fold, {}, [id, id, id]) == [id, id] by {
      assert [id, id, id][1..] == [id, id];
      assert {} + {k} == {k};
    }
    assert start.value.entries.Keys == {};
    AddClassesReportDuplicates(fold, start, cs);
  }

  /** Of three declarations of one class, the first is the one kept. */
  lemma ThriceKeepsFirst(fold: string -> string, c: ClassDeclaration)
    ensures var start: Walk<SymbolTable> := Walk(Empty(), true, []);
      var r := AddClasses(fold, start, [c, c, c]);
      fold(c.identifier.text) in r.value.entries &&
      r.value.entries[fold(c.identifier.text)].classDeclaration.identifier == c.identifier
  {
    var cs := [c, c, c];
    var start: Walk<SymbolTable> := Walk(Empty(), true, []);
    assert start.value.entries.Keys == {};
    assert ClassNames(cs)[0] == c.identifier;
    assert FirstIdentifier(fold, {}, ClassNames(cs), 0);
    ClassesFirstWinsAt(fold, start, cs, 0);
    assert ClassEntry(fold, c).value.classDeclaration == c;
  }

  /**
    Any class declared three times in a row: the second and third
    declarations are each reported once, in order, under the first
    declaration's spelling and line, whatever the class contains.
   */
  lemma ThriceDeclared(fold: string -> string, c: ClassDeclaration)
    ensures var r := BuildSymbolTable(fold, Program("p", [c, c, c]));
      var d := Diagnostic(DuplicateClass, c.identifier.text, c.identifier.line, c.identifier.line);
      OfKind(DuplicateClass, r.diagnostics) == [d, d]
  {
    var start: Walk<SymbolTable> := Walk(Empty(), true, []);
    var r := AddClasses(fold, start, [c, c, c]);
    ThriceClashes(fold, c);
    ThriceKeepsFirst(fold, c);
    TwoClassReports(fold, r, c.identifier);
    assert BuildSymbolTable(fold, Program("p", [c, c, c])).diagnostics == r.diagnostics;
  }
}

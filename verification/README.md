# Declaration analysis of a small Pascal-like compiler, in Dafny

This project models the declaration-analysis pass of a compiler front end for
a small class-based, Pascal-flavoured language. The pass walks a parsed
program and builds a three-level symbol table: program, then class, then
method. Duplicate declarations are settled by "first declaration wins", and
one success flag decides whether the table is returned at all.

The pass is modelled as pure functions folding over sequences. They thread a
`Walk` (the structure built so far, the success flag, and the diagnostics
reported so far) through the classes, their fields, their methods, and each
method's parameters and locals.

Files and modules:

- `wrappers.dfy` (`Wrappers`): `Option`, for the table-or-NULL result.
- `ast.dfy` (`Ast`): the declaration-level nodes of the parse tree.
  - `TypeDenoter` is a sum type over the six tags, and `ArrayType` nests it.
  - The item/next cons-lists become sequences. `List`, `ToSeq` and `FromSeq` show that this keeps the order and loses nothing.
- `insensitive_map.dfy` (`InsensitiveMaps`): the keyed store used at every scope.
  - `Count` and `Index` are the header's `count` and `operator[]`, which use keys exactly as given.
  - `HasKey`, `Item` and `Put` are the `has_key`, `item` and `put` the builder calls. They address the store through a case fold `fold`.
- `diagnostics.dfy` (`Diagnostics`): the three kinds of conflict, each as an abstract record, the reports of one kind (`OfKind`), plus the threaded `Walk` state.
- `namespace.dfy` (`Namespaces`): `add_variables` and a method's flat namespace. That namespace holds the method's own name, then its parameters, then its locals.
- `symbol_table.dfy` (`SymbolTables`): `build_symbol_table`, covering classes, fields, methods and the final table-or-NULL.
- `scenario.dfy` (`Scenarios`): a two-class program (`Animal`, then `animal`) worked end to end, and a class declared three times.

The case fold is a parameter, `fold: string -> string`, of every builder
function. It lives in code that is not part of this model, so every property
below holds for any fold. `HasKey(fold, m, k)` means `fold(k)` is a key of
`m`, and `Put` stores under `fold(k)`.

Where the code's behaviour is easy to misread, the model follows the code:

- Class fields are put with no existence check (symbol_table.cpp:31-32). So when a field name is declared twice, the LAST group wins. It is not the first, and the clash is not reported.
- insensitive_map.h never writes its original-spelling map (insensitive_map.h:10), and nothing in the pass reads it. `Put` is stated on the folded key only.
- A duplicate class is reported under the FIRST class's spelling, which is what symbol_table.cpp:20 prints. The message is tagged with the line of the later class.
- The builder reads an identifier as `(text, line)`, a method's `type`, `parameter_list` as a list of variable declarations, and `block->variable_list`. parser.h names and shapes these differently. The datatypes follow the builder.
- The source registers a class entry first and then fills it through the pointer it just stored (symbol_table.cpp:24-36). The model builds the entry and then puts it. The final table is the same.

## Model

| member | source | states |
|---|---|---|
| `Ast.ToSeqFromSeq` | parser.h:53-57 | a cons-list built from a sequence of items reads back as exactly that sequence, so order is preserved |
| `Ast.FromSeqToSeq` | parser.h:88-93 | every cons-list is the list built from its own items, so a sequence represents it without loss |
| `Ast.TypeFromTag` | parser.h:96-102 | the tag-only constructor yields a value exactly for the four basic tags, and that value carries the tag; CLASS and ARRAY need a payload |
| `Ast.TypeFromClassId` | parser.h:103 | the class-name constructor yields a CLASS type carrying that name |
| `Ast.TypeFromArrayType` | parser.h:104 | the array constructor yields an ARRAY type carrying that array type |
| `Ast.TypeDenoterFromParts` | parser.h:95-112 | every type is produced by one of the three constructors from its own tag and payload; a basic type is determined by its tag |
| `InsensitiveMaps.Empty` | insensitive_map.h:12 | a freshly constructed map stores no key and has an empty spelling map |
| `InsensitiveMaps.Count` | insensitive_map.h:13 | count is 1 when the exact key is stored and 0 otherwise |
| `InsensitiveMaps.Index` | insensitive_map.h:14 | indexing leaves the key stored (count 1); a present key gives its value and changes nothing; an absent key gets the default value; no other key's count or value changes; the spelling map is untouched |
| `InsensitiveMaps.IndexTwice` | insensitive_map.h:14 | a second access to a key finds what the first left there and changes nothing |
| `InsensitiveMaps.KeysAreExact` | insensitive_map.h:9-14 | the header does no folding: after indexing `Animal`, `animal` is still absent |
| `InsensitiveMaps.Put` | symbol_table.cpp:24 | after put, the name is present and maps to the new value; exactly the folded key is added; every other entry keeps its value |
| `InsensitiveMaps.FoldedAccess` | symbol_table.cpp:17-18 | has_key is count of the folded key, and item is operator[] of the folded key |
| `InsensitiveMaps.SameFoldSameEntry` | symbol_table.cpp:17-24 | two names with the same fold are found together and put into the same entry |
| `Namespaces.AddIdentifiers` | symbol_table.cpp:71-80 | the loop never overwrites an entry; the keys afterwards are the old ones plus every identifier's; the flag survives iff every identifier is new and pairwise distinct; exactly then nothing is reported; every report is a duplicate variable |
| `Namespaces.AddIdentifiersFirstWins` | symbol_table.cpp:72-73 | every identifier that is the first use of its name is stored with its group's type and its own line |
| `Namespaces.AddIdentifiersReports` | symbol_table.cpp:74-78 | the reports are exactly the clashing identifiers in order; each has its own line and the line of the entry that was kept |
| `Namespaces.AddVariables` | symbol_table.cpp:69-82 | add_variables keeps every existing entry; inserts each first-used identifier with the group's type and its own line; returns true iff no identifier collided, with earlier ones in the same list counted; reports nothing exactly when it returns true; each report carries the kept entry's line |
| `Namespaces.GroupsAreFlat` | symbol_table.cpp:56-61 | because `&=` never skips a call, processing groups one at a time equals one loop over all their identifiers with a single flag |
| `Namespaces.FunctionNamespace` | symbol_table.cpp:48-61 | a registered method's namespace maps its own name to the method's type and line; holds exactly that name plus every parameter and local; succeeds iff no parameter or local clashes with the name or with each other; reports nothing exactly then |
| `Namespaces.NamespaceIsOneLoop` | symbol_table.cpp:52-61 | the namespace is one loop over parameters then locals, starting from a namespace holding only the method's name |
| `Namespaces.FunctionNamespaceFirstWins` | symbol_table.cpp:55-61 | every parameter or local that is the first use of its name is stored with its type and line |
| `Namespaces.FunctionNamespaceReports` | symbol_table.cpp:56-61 | a method's diagnostics are exactly its clashing parameters and locals, in declaration order |
| `Namespaces.SelfNameReserved` | symbol_table.cpp:51-57 | a parameter or local named like its method fails the method |
| `Namespaces.LocalClashFails` | symbol_table.cpp:55-61 | a local named like a parameter fails the method |
| `SymbolTables.PutFieldNames` | symbol_table.cpp:31-32 | every identifier of a field group maps to that group afterwards; names outside the group keep their entries |
| `SymbolTables.AddFields` | symbol_table.cpp:28-33 | the field map afterwards holds exactly the old names plus every declared field name |
| `SymbolTables.AddFieldsLastWins` | symbol_table.cpp:29-33 | with no existence check, each field name maps to the last group declaring it; undeclared names keep their entries |
| `SymbolTables.AddFunction` | symbol_table.cpp:38-62 | a method whose name is taken leaves the map unchanged, clears the flag, and is reported against the kept method's line; otherwise its entry is added under its name and the flag keeps its value iff its namespace is clash-free |
| `SymbolTables.AddFunctions` | symbol_table.cpp:36-63 | no method entry is ever replaced; the keys afterwards are the old ones plus every method name; the flag survives iff no fatal conflict was reported |
| `SymbolTables.AddFunctionNew` | symbol_table.cpp:48-61 | a method new to its class is stored with the entry built from it alone, and the reports it adds are exactly its own namespace's reports, appended after the earlier ones |
| `SymbolTables.FunctionsFirstWins` | symbol_table.cpp:40-48 | under each method name sits the entry built from the first method of that name |
| `SymbolTables.AddFunctionsReports` | symbol_table.cpp:41-46 | the duplicate-method reports the loop adds are exactly the methods whose name is already taken, as read front to back by the reference `CollidingIdentifiers`, in order; each carries the later method's spelling and line and the kept method's line |
| `SymbolTables.MethodsNeverReportClasses` | symbol_table.cpp:36-63 | a class's methods report duplicate methods and variables only, never a duplicate class |
| `SymbolTables.FunctionsSucceedIff` | symbol_table.cpp:41-61 | the methods keep the flag iff their names are new and pairwise distinct and every method's namespace is clash-free |
| `SymbolTables.ClassEntry` | symbol_table.cpp:27-63 | a registered class's entry refers to its declaration; its flag holds iff its methods report nothing fatal, iff its method names are distinct and every method is clash-free |
| `SymbolTables.FieldsNeverReported` | symbol_table.cpp:28-36 | changing a class's fields changes neither its flag, nor its diagnostics, nor its methods, so a field may share a method's name |
| `SymbolTables.ParentNeverRead` | parser.h:59-65 | the builder never reads a class's parent name: changing it changes neither the class's flag, its diagnostics, its methods nor its fields |
| `SymbolTables.ClassEntryMethodReports` | symbol_table.cpp:37-46 | a registered class's duplicate-method reports are exactly its redeclared methods, as read front to back by `CollidingIdentifiers`, in order; each carries the later method's spelling and line and the kept method's line |
| `SymbolTables.ClassEntryContents` | symbol_table.cpp:28-49 | the class's method map holds exactly its method names, each with the first such method's entry; the field map holds exactly its field names, each with the last group declaring it |
| `SymbolTables.AddClass` | symbol_table.cpp:14-25 | a class whose name is taken leaves the table and the flag unchanged and is reported under the kept class's spelling and line; otherwise its entry is added under its name |
| `SymbolTables.AddClasses` | symbol_table.cpp:13-64 | the walk visits every class and never replaces a class entry; the keys afterwards are the old ones plus every class name; the flag survives iff nothing fatal was reported |
| `SymbolTables.ClassesFirstWins` | symbol_table.cpp:17-24 | under each class name sits the entry built from the first class of that name alone, so a later class's fields and methods are added nowhere |
| `SymbolTables.AddClassesReports` | symbol_table.cpp:17-22 | the duplicate-class reports the loop adds are exactly the classes whose name is already taken, as read front to back by `CollidingIdentifiers`, in order; each carries the kept class's spelling and line and is tagged with the later class's line |
| `SymbolTables.ClassesSucceedIff` | symbol_table.cpp:13-64 | the walk keeps the flag iff every class that is first of its name passes; later duplicates are never examined |
| `SymbolTables.BuildSymbolTable` | symbol_table.cpp:8-67 | the table is returned iff no duplicate method or variable was reported, iff every first-of-name class passes; a duplicate class alone never withholds it; a returned table holds exactly the class names |
| `SymbolTables.BuildKeepsFirstClass` | symbol_table.cpp:17-24 | the table as built keeps, under each class name, the first class's entry; a returned table is that table |
| `Scenarios.ThriceDeclared` | symbol_table.cpp:17-22 | any class declared three times yields exactly two duplicate-class reports, both under the first declaration's spelling and line |
| `Scenarios.ZooBuild` | symbol_table.cpp:17-22 | for `Animal` followed by `animal`, the build succeeds with one duplicate-class report at the second class's line against line 1; only the first class is kept, with field `name`, and method `speak`, whose namespace holds `speak` and `sound` |

## Left out

- Statement and expression nodes (parser.h:162-287). They are unfinished in the source and the pass does not read them. The same goes for the statement list of a function block.
- `parse_input` (parser.h:290), the external parser. The model starts from a parsed `Program`.
- Diagnostic text and the error stream. This covers `err_header` from utils.h, which is not part of this model, and the missing line end after the variable message at symbol_table.cpp:77. Diagnostics are abstract records in discovery order.
- The concrete case-fold function. It lives in code that is not part of this model, so it is a parameter.
- Raw pointers, `new` and ownership. Everything is a value, and a stored NULL pointer is `None`.
- Resolution of `parent_id` and inheritance. The source stores the parent name but never reads it.
- The writer of the original-spelling map. insensitive_map.h never writes its original-spelling map, and the code that would is not part of this model.
- Integer widths. Line numbers and array bounds are unbounded integers. Line numbers are only stored and printed; array bounds only travel inside stored types, and nothing computes with either, so no wrap-around arises.
- The constructors of `ClassSymbolTable` and `FunctionSymbolTable`. They live in symbol_table.h, which is not part of this model. The model assumes each starts with empty field, method and variable maps.
- `InsensitiveMaps.Put`: promises nothing about the original-spelling map, because the body of `put` is not part of this model and nothing in the pass reads that map.
- `InsensitiveMaps.Index`: the value-initialised default of `std::map` is a parameter `zero`. For the pointer values the builder stores, that default is NULL.
- `Ast.TypeFromTag`: for CLASS and ARRAY the C++ constructor leaves the union uninitialised. The model returns `None` rather than inventing a payload.

/**
  The declaration-level nodes of the parse tree (parser.h), as immutable values.

  parser.h chains ClassList, VariableDeclarationList, IdentifierList and
  FunctionDeclarationList as item/next cons-lists. The rest of the model holds
  them as sequences; `List` and its two conversions show that nothing but the
  order is lost or gained by doing so.

  Field names follow the shape that symbol_table.cpp consumes (an identifier
  carries its text and line, a function declaration carries its type and its
  parameter groups), which differs in places from the structs in parser.h.
 */
module Ast {
  import opened Wrappers

  /** An item/next cons-list as parser.h writes its list nodes; `Nil` stands for NULL. */
  datatype List<T> = Nil | Cons(item: T, next: List<T>)

  function Length<T>(l: List<T>): nat
  {
    match l
    case Nil => 0
    case Cons(_, next) => 1 + Length(next)
  }

  /** The items of a cons-list, in the order the builder's `next` walk visits them. */
  function ToSeq<T>(l: List<T>): (s: seq<T>)
    ensures |s| == Length(l)
    ensures l.Cons? ==> s[0] == l.item && s[1..] == ToSeq(l.next)
  {
    match l
    case Nil => []
    case Cons(x, next) => [x] + ToSeq(next)
  }

  /** The cons-list holding the given items, first item at the head. */
  function FromSeq<T>(s: seq<T>): (l: List<T>)
    ensures Length(l) == |s|
  {
    if s == [] then Nil else Cons(s[0], FromSeq(s[1..]))
  }

  /** Reading back a list built from a sequence gives the sequence: order is preserved. */
  lemma {:induction false} ToSeqFromSeq<T>(s: seq<T>)
    ensures ToSeq(FromSeq(s)) == s
  {
    if s != [] {
      ToSeqFromSeq(s[1..]);
    }
  }

  /** Every cons-list is the list built from its items: sequences lose nothing. */
  lemma {:induction false} FromSeqToSeq<T>(l: List<T>)
    ensures FromSeq(ToSeq(l)) == l
  {
    match l
    case Nil =>
    case Cons(x, next) =>
      FromSeqToSeq(next);
  }

  /** The tag of a TypeDenoter: parser.h's enum TypeDenoter::Type. */
  datatype TypeTag = IntegerTag | RealTag | CharTag | BooleanTag | ClassTag | ArrayTag
  {
    /** The tags whose TypeDenoter carries no payload. */
    predicate IsBasic()
    {
      !ClassTag? && !ArrayTag?
    }
  }

  /**
    A declared type. parser.h keeps a tag beside a union of a class name and an
    array type; here each tag is its own constructor, so the payload always
    matches the tag.
   */
  datatype TypeDenoter =
    | Integer
    | Real
    | Char
    | Boolean
    | ClassType(classId: string)
    | Array(arrayType: ArrayType)
  {
    function Tag(): TypeTag
    {
      match this
      case Integer => IntegerTag
      case Real => RealTag
      case Char => CharTag
      case Boolean => BooleanTag
      case ClassType(_) => ClassTag
      case Array(_) => ArrayTag
    }
  }

  /** `array[min..max] of type`; the element type may itself be an array. */
  datatype ArrayType = ArrayType(min: int, max: int, typ: TypeDenoter)

  /**
    The constructor TypeDenoter(Type): it sets the tag and nothing else. For
    CLASS and ARRAY the union is then left unset, which no value of the model
    can represent, so those tags give None.
   */
  function TypeFromTag(tag: TypeTag): (r: Option<TypeDenoter>)
    ensures r.Some? <==> tag.IsBasic()
    ensures r.Some? ==> r.value.Tag() == tag
  {
    match tag
    case IntegerTag => Some(Integer)
    case RealTag => Some(Real)
    case CharTag => Some(Char)
    case BooleanTag => Some(Boolean)
    case ClassTag => None
    case ArrayTag => None
  }

  /** The constructor TypeDenoter(char*): a CLASS type naming the class. */
  function TypeFromClassId(classId: string): (r: TypeDenoter)
    ensures r.Tag() == ClassTag && r.classId == classId
  {
    ClassType(classId)
  }

  /** The constructor TypeDenoter(ArrayType*): an ARRAY type carrying the array type. */
  function TypeFromArrayType(arrayType: ArrayType): (r: TypeDenoter)
    ensures r.Tag() == ArrayTag && r.arrayType == arrayType
  {
    Array(arrayType)
  }

  /**
    The three constructors between them produce every TypeDenoter, each from
    its own tag and payload: a basic type is determined by its tag alone.
   */
  lemma TypeDenoterFromParts(t: TypeDenoter)
    ensures t.Tag().IsBasic() ==> TypeFromTag(t.Tag()) == Some(t)
    ensures t.Tag() == ClassTag ==> TypeFromClassId(t.classId) == t
    ensures t.Tag() == ArrayTag ==> TypeFromArrayType(t.arrayType) == t
  {
  }

  /** A name as the builder reads it: `identifier->text` and `identifier->line_number`. */
  datatype Identifier = Identifier(text: string, line: int)

  /** One declaration group, `a, b: T`: a list of identifiers sharing one type. */
  datatype VariableDeclaration = VariableDeclaration(idList: seq<Identifier>, typ: TypeDenoter)

  /** The part of a function body the builder reads: its local variable groups. */
  datatype FunctionBlock = FunctionBlock(variableList: seq<VariableDeclaration>)

  /** A method: its name, its declared (return) type, its parameter groups and its block. */
  datatype FunctionDeclaration = FunctionDeclaration(
    identifier: Identifier,
    typ: TypeDenoter,
    parameterList: seq<VariableDeclaration>,
    block: FunctionBlock)

  /** A class body: field groups and methods, each in declaration order. */
  datatype ClassBlock = ClassBlock(
    variableList: seq<VariableDeclaration>,
    functionList: seq<FunctionDeclaration>)

  /** A class; `parentId` is None when the class extends nothing. */
  datatype ClassDeclaration = ClassDeclaration(
    identifier: Identifier,
    parentId: Option<string>,
    classBlock: ClassBlock)

  datatype Program = Program(id: string, classList: seq<ClassDeclaration>)
}

// The part of the lowered code-generation model that the Rust backend reads:
// declarations, type positions and the tuples lifted out of them.
module TypeModel {
  import opened Common
  import opened GuardedTraversal

  // What a scalar class is realized as. An absent or unspecified class, and a
  // unit backing, are all a float.
  datatype Backing = FloatBacking | IntegerBacking | BooleanBacking | StringBacking | BytesBacking

  datatype Primitive = Integer | Float | Boolean | String | Bytes | Unspecified

  // A reference is local with an index into the declarations, foreign with the
  // path it is spelled by, or resolved by no package in scope.
  datatype TypeRef = Local(index: nat) | Foreign(path: string) | Unresolved(text: string)

  datatype Type = Type(optional: bool, kind: Kind)

  // A tuple position holds the tuple its index finds, `None` when the index is
  // past the end of the list.
  datatype Kind =
    | Named(reference: TypeRef)
    | PrimitiveKind(prim: Primitive)
    | Inline(scalar: Backing)
    | TupleKind(tuple: Option<Tuple>)
    | ArrayKind(element: Option<Type>, amin: nat, amax: nat)
    | MapKind(key: Option<Type>, val: Option<Type>, mmin: nat, mmax: nat)
    | StreamKind
    | UnsetKind

  datatype Tuple = Tuple(name: string, fields: seq<TupleField>)

  datatype TupleField = TupleField(name: string, typ: Option<Type>)

  // The resolved init of a position: whether it is derivable over the scope,
  // its scalar text, and the one-level flag the front end recorded.
  datatype Init = Init(derivable: bool, text: Option<string>, oneLevel: bool)

  // A declared init: its text, and the 64-bit integer it parses to, if it does.
  datatype DeclaredInit = DeclaredInit(text: string, asInteger: Option<int>)

  datatype Field = Field(name: string, typ: Option<Type>, init: Option<Init>, declaredInit: Option<DeclaredInit>)

  // A slot holds a field, or nothing: a tombstone or an empty occupant.
  datatype Slot = FieldSlot(field: Field) | VacantSlot

  datatype Member = Member(name: string, number: int)

  datatype Arm = Arm(name: string, reference: Option<TypeRef>)

  datatype DeclKind =
    | ScalarDecl(scalar: Backing)
    | EnumDecl(members: seq<Member>, initMember: Option<nat>)
    | EnumSetDecl
    | StructDecl(slots: seq<Slot>)
    | UnionDecl(arms: seq<Arm>)
    | ConstantDecl
    | UnsetDecl

  datatype Decl = Decl(name: string, kind: DeclKind, init: Option<Init>)

  datatype Model = Model(decls: seq<Decl>)
  {
    // Two declarations of one package never share a name.
    ghost predicate UniqueNames() {
      forall i, j :: 0 <= i < |decls| && 0 <= j < |decls| && decls[i].name == decls[j].name ==> i == j
    }

    // The declaration a reference of this package resolves to.
    function Lookup(r: TypeRef): Option<nat> {
      if r.Local? && r.index < |decls| then Some(r.index) else None
    }

    function Names(): set<string> {
      set i | 0 <= i < |decls| :: decls[i].name
    }

    function NameList(): seq<string> {
      seq(|decls|, i requires 0 <= i < |decls| => decls[i].name)
    }
  }

  // The declarations a traversal is currently inside, by name.
  class PathSet {
    var names: set<string>

    constructor ()
      ensures names == {}
    {
      names := {};
    }

    // `false` when the name was already on the path.
    method Insert(name: string) returns (inserted: bool)
      modifies this
      ensures inserted == (name !in old(names))
      ensures names == old(names) + {name}
    {
      inserted := name !in names;
      names := names + {name};
    }

    method Remove(name: string)
      modifies this
      ensures names == old(names) - {name}
    {
      names := names - {name};
    }
  }

  lemma {:induction false} NamesAgree(m: Model)
    ensures ToSet(m.NameList()) == m.Names()
  {
    forall name | name in m.Names() ensures name in ToSet(m.NameList()) {
      var i :| 0 <= i < |m.decls| && m.decls[i].name == name;
      assert m.NameList()[i] == name;
    }
  }
}

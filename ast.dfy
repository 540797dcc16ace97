/** The symbol scopes of ast.go: each scope maps names to definitions and
    may have an owner; a lookup tries the scope itself, then its owners
    outward. */
module Scopes {
  import opened Typing

  /** A definition (`Def`): a variable, a type alias or a function; its id
      is its name. */
  datatype Def =
    | VarDef(v: Var)
    | Typedef(name: string, typ: Type)
    | Fn(name: string, ret: Var, params: seq<Var>)

  function Id(d: Def): string
  {
    match d
    case VarDef(v) => v.name
    case Typedef(name, _) => name
    case Fn(name, _, _) => name
  }

  /** The reference lookup: the binding in the first frame, innermost first,
      that has `id`. */
  function Lookup(frames: seq<map<string, Def>>, id: string): (r: Maybe<Def>)
  {
    if frames == [] then Nothing
    else if id in frames[0] then Just(frames[0][id])
    else Lookup(frames[1..], id)
  }

  /** `Lookup` finds the innermost binding: the frame it comes from has `id`
      and no frame before it has; it finds nothing exactly when no frame has `id`. */
  lemma {:induction false} LookupInnermost(frames: seq<map<string, Def>>, id: string)
    ensures var r := Lookup(frames, id);
      (r.Nothing? <==> forall i :: 0 <= i < |frames| ==> id !in frames[i]) &&
      (r.Just? ==> exists i ::
         0 <= i < |frames| && id in frames[i] && r.value == frames[i][id] &&
         forall j :: 0 <= j < i ==> id !in frames[j])
    decreases |frames|
  {
    if frames != [] && id !in frames[0] {
      LookupInnermost(frames[1..], id);
      var r := Lookup(frames[1..], id);
      if r.Just? {
        var i :| 0 <= i < |frames| - 1 && id in frames[1..][i] && r.value == frames[1..][i][id] &&
          forall j :: 0 <= j < i ==> id !in frames[1..][j];
        assert id in frames[i + 1];
        forall j | 0 <= j < i + 1 ensures id !in frames[j] {
          if j > 0 {
            assert frames[j] == frames[1..][j - 1];
          }
        }
      } else {
        forall i | 0 <= i < |frames| ensures id !in frames[i] {
          if i > 0 {
            assert frames[i] == frames[1..][i - 1];
          }
        }
      }
    }
  }

  class Scope {
    var defs: map<string, Def>
    const owner: Scope?
    /** Ghost bookkeeping for the owner chain: its length, and its scopes. */
    ghost const depth: nat
    ghost const owners: set<Scope>

    /** The owner chain is finite and `owners` holds exactly its scopes. */
    ghost predicate Valid()
      decreases depth
    {
      (owner == null ==> depth == 0 && owners == {}) &&
      (owner != null ==>
         owner.depth < depth && owners == {owner} + owner.owners && owner.Valid())
    }

    /** A scope is never its own owner, however far out. */
    lemma OwnersBelow()
      requires Valid()
      ensures forall o :: o in owners ==> o.depth < depth
      ensures this !in owners
      decreases depth
    {
      if owner != null {
        owner.OwnersBelow();
      }
    }

    /** The scopes a lookup may read. */
    ghost function Chain(): set<object>
    {
      {this} + owners
    }

    /** The maps of the chain, this scope first. */
    function Frames(): (fs: seq<map<string, Def>>)
      requires Valid()
      reads Chain()
      ensures |fs| >= 1 && fs[0] == defs
      decreases depth
    {
      if owner == null then [defs] else [defs] + owner.Frames()
    }

    /** `Search`: this scope's entry, else the owner's answer, else nil. */
    function Search(id: string): (r: Maybe<Def>)
      requires Valid()
      reads Chain()
      ensures r == Lookup(Frames(), id)
      decreases depth
    {
      if id in defs then Just(defs[id])
      else if owner != null then owner.Search(id)
      else Nothing
    }

    /** A scope with no definitions under `owner`. */
    constructor (owner: Scope?)
      requires owner != null ==> owner.Valid()
      ensures defs == map[] && this.owner == owner && Valid()
      ensures owner != null ==> owners == {owner} + owner.owners
      ensures owner == null ==> owners == {}
    {
      defs := map[];
      this.owner := owner;
      depth := if owner == null then 0 else owner.depth + 1;
      owners := if owner == null then {} else {owner} + owner.owners;
    }

    /** `Add`: bind the definition's id in this scope, replacing any earlier
        binding; the lookup of that id from here then finds it. */
    method Add(d: Def)
      requires Valid()
      modifies this
      ensures defs == old(defs)[Id(d) := d]
      ensures Search(Id(d)) == Just(d)
      ensures forall id :: id != Id(d) ==> Search(id) == old(Search(id))
    {
      OwnersBelow();
      defs := defs[Id(d) := d];
      forall id | id != Id(d) ensures Search(id) == old(Search(id)) {
        if owner != null {
          assert this !in owner.Chain();
          assert owner.Search(id) == old(owner.Search(id));
        }
      }
    }
  }

  /** A lookup from a scope finds the innermost binding along its chain. */
  lemma SearchInnermost(s: Scope, id: string)
    requires s.Valid()
    ensures var r, fs := s.Search(id), s.Frames();
      (r.Nothing? <==> forall i :: 0 <= i < |fs| ==> id !in fs[i]) &&
      (r.Just? ==> exists i ::
         0 <= i < |fs| && id in fs[i] && r.value == fs[i][id] &&
         forall j :: 0 <= j < i ==> id !in fs[j])
  {
    var fs := s.Frames();
    LookupInnermost(fs, id);
    assert fs == s.Frames();
  }

  /** `Ast`: the scopes created so far. */
  class Ast {
    var scopes: seq<Scope>

    constructor ()
      ensures scopes == []
    {
      scopes := [];
    }

    /** `NewScope`: append one empty scope under `owner` and return it. */
    method NewScope(owner: Scope?) returns (s: Scope)
      requires owner != null ==> owner.Valid()
      modifies this
      ensures fresh(s) && s.Valid() && s.defs == map[] && s.owner == owner
      ensures scopes == old(scopes) + [s]
    {
      s := new Scope(owner);
      scopes := scopes + [s];
    }
  }
}

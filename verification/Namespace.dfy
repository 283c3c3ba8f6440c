/**
 The relation namespace of the catalog. Tables and views are stored apart but share one set of
 names, so claiming a name looks in both inside one write transaction. Transactions are the
 atomic steps here, and every interleaving of sessions is some sequence of them.
 */
module Namespace {

  /** An encoded record; what it holds does not matter to the namespace. */
  type Record = string

  datatype Kind = Tables | Views

  datatype Store = Store(tables: map<string, Record>, views: map<string, Record>) {
    function Of(kind: Kind): map<string, Record> {
      match kind
      case Tables => tables
      case Views => views
    }

    function With(kind: Kind, records: map<string, Record>): Store {
      match kind
      case Tables => Store(records, views)
      case Views => Store(tables, records)
    }

    predicate Taken(name: string) {
      name in tables || name in views
    }
  }

  const EMPTY: Store := Store(map[], map[])

  /** One write transaction. */
  datatype Action =
    | Claim(kind: Kind, name: string, record: Record)
    | Put(kind: Kind, name: string, record: Record)
    | Delete(kind: Kind, name: string)

  function Step(s: Store, a: Action): Store {
    match a
    case Claim(kind, name, record) => if s.Taken(name) then s else s.With(kind, s.Of(kind)[name := record])
    case Put(kind, name, record) => s.With(kind, s.Of(kind)[name := record])
    case Delete(kind, name) => s.With(kind, s.Of(kind) - {name})
  }

  function Run(s: Store, actions: seq<Action>): Store
    decreases |actions|
  {
    if actions == [] then s else Run(Step(s, actions[0]), actions[1..])
  }

  lemma {:induction false} RunJoined(s: Store, a: seq<Action>, b: seq<Action>)
    ensures Run(s, a + b) == Run(Run(s, a), b)
    decreases |a|
  {
    if a == [] {
      assert a + b == b;
    } else {
      assert (a + b)[1..] == a[1..] + b;
      RunJoined(Step(s, a[0]), a[1..], b);
    }
  }

  lemma RunStep(s: Store, actions: seq<Action>, a: Action)
    ensures Run(s, actions + [a]) == Step(Run(s, actions), a)
  {
    RunJoined(s, actions, [a]);
    assert [a][1..] == [];
  }

  // ----- one name, one relation

  predicate OneNamespace(s: Store) {
    s.tables.Keys !! s.views.Keys
  }

  /** An unchecked upsert of a name the other kind of relation holds. */
  predicate Collides(s: Store, a: Action) {
    a.Put? && a.name in s.Of(if a.kind.Tables? then Views else Tables)
  }

  /** One step breaks the namespace exactly when it is such an upsert. */
  lemma StepKeepsNamespace(s: Store, a: Action)
    requires OneNamespace(s)
    ensures OneNamespace(Step(s, a)) <==> !Collides(s, a)
  {
    var t := Step(s, a);
    if Collides(s, a) {
      assert a.name in t.tables.Keys * t.views.Keys;
    } else {
      forall n | n in t.tables.Keys
        ensures n !in t.views.Keys
      {
        assert n in s.tables.Keys ==> n !in s.views.Keys;
      }
    }
  }

  ghost predicate AlwaysOneNamespace(s: Store, actions: seq<Action>)
    decreases |actions|
  {
    OneNamespace(s) && (actions != [] ==> AlwaysOneNamespace(Step(s, actions[0]), actions[1..]))
  }

  ghost predicate NeverCollides(s: Store, actions: seq<Action>)
    decreases |actions|
  {
    actions != [] ==> !Collides(s, actions[0]) && NeverCollides(Step(s, actions[0]), actions[1..])
  }

  /** Over any interleaving, no name is ever both a table and a view exactly when no upsert collides. */
  lemma {:induction false} RunKeepsNamespace(s: Store, actions: seq<Action>)
    requires OneNamespace(s)
    ensures AlwaysOneNamespace(s, actions) <==> NeverCollides(s, actions)
    decreases |actions|
  {
    if actions == [] {
    } else {
      StepKeepsNamespace(s, actions[0]);
      if OneNamespace(Step(s, actions[0])) {
        RunKeepsNamespace(Step(s, actions[0]), actions[1..]);
      }
    }
  }

  /** Every upsert redefines a relation that exists at that moment. */
  ghost predicate OnlyRedefines(s: Store, actions: seq<Action>)
    decreases |actions|
  {
    actions != [] ==>
      && (actions[0].Put? ==> actions[0].name in s.Of(actions[0].kind))
      && OnlyRedefines(Step(s, actions[0]), actions[1..])
  }

  /** Claims, redefinitions of what exists and deletes keep one namespace in every interleaving. */
  lemma {:induction false} RedefiningIsSafe(s: Store, actions: seq<Action>)
    requires OneNamespace(s) && OnlyRedefines(s, actions)
    ensures AlwaysOneNamespace(s, actions)
    decreases |actions|
  {
    if actions == [] {
    } else {
      var a := actions[0];
      if a.Put? {
        assert a.name in s.tables.Keys <==> a.name !in s.views.Keys;
      }
      StepKeepsNamespace(s, a);
      RedefiningIsSafe(Step(s, a), actions[1..]);
    }
  }

  /**
   Replacing a view checks for a table and then upserts, in two transactions. Whatever free
   name it is for, a table claimed in between ends up sharing the name with the view.
   */
  lemma ReplaceCanRace(s: Store, name: string, table: Record, view: Record)
    requires !s.Taken(name)
    ensures !OneNamespace(Run(s, [Claim(Tables, name, table), Put(Views, name, view)]))
  {
    var claimed := Step(s, Claim(Tables, name, table));
    var t := Step(claimed, Put(Views, name, view));
    assert [Claim(Tables, name, table), Put(Views, name, view)][1..] == [Put(Views, name, view)];
    assert Run(s, [Claim(Tables, name, table), Put(Views, name, view)]) == t by {
      RunStep(s, [Claim(Tables, name, table)], Put(Views, name, view));
      RunStep(s, [], Claim(Tables, name, table));
      assert [] + [Claim(Tables, name, table)] == [Claim(Tables, name, table)];
      assert [Claim(Tables, name, table)] + [Put(Views, name, view)]
          == [Claim(Tables, name, table), Put(Views, name, view)];
    }
    assert name in t.tables.Keys * t.views.Keys;
  }

  // ----- who wins a name

  /** The claim succeeds: it finds the name free. */
  predicate Wins(s: Store, a: Action, name: string) {
    a.Claim? && a.name == name && !s.Taken(name)
  }

  function ClaimsWon(s: Store, actions: seq<Action>, name: string): nat
    decreases |actions|
  {
    if actions == [] then 0
    else (if Wins(s, actions[0], name) then 1 else 0) + ClaimsWon(Step(s, actions[0]), actions[1..], name)
  }

  /** Upserts that bring in a name that was free. */
  function Arrivals(s: Store, actions: seq<Action>, name: string): nat
    decreases |actions|
  {
    if actions == [] then 0 else
      var arrives := actions[0].Put? && actions[0].name == name && !s.Taken(name);
      (if arrives then 1 else 0) + Arrivals(Step(s, actions[0]), actions[1..], name)
  }

  /** Steps after which a name that was taken is free. */
  function Removals(s: Store, actions: seq<Action>, name: string): nat
    decreases |actions|
  {
    if actions == [] then 0 else
      var removes := s.Taken(name) && !Step(s, actions[0]).Taken(name);
      (if removes then 1 else 0) + Removals(Step(s, actions[0]), actions[1..], name)
  }

  function Holders(s: Store, name: string): nat {
    if s.Taken(name) then 1 else 0
  }

  /** Conservation of a name: it is held once per claim won or upsert arrived, less the removals. */
  lemma {:induction false} NameConserved(s: Store, actions: seq<Action>, name: string)
    ensures Holders(Run(s, actions), name) + Removals(s, actions, name)
            == Holders(s, name) + ClaimsWon(s, actions, name) + Arrivals(s, actions, name)
    decreases |actions|
  {
    if actions == [] {
    } else {
      NameConserved(Step(s, actions[0]), actions[1..], name);
    }
  }

  /** Between two removals of a name at most one claim on it succeeds, and none while it is held. */
  lemma OneWinner(s: Store, actions: seq<Action>, name: string)
    requires Removals(s, actions, name) == 0
    ensures ClaimsWon(s, actions, name) <= 1
    ensures s.Taken(name) ==> ClaimsWon(s, actions, name) == 0
  {
    NameConserved(s, actions, name);
  }

  /** No later transaction rewrites or removes the record under a name. */
  ghost predicate LeavesAlone(actions: seq<Action>, kind: Kind, name: string) {
    forall i :: 0 <= i < |actions| ==>
      !((actions[i].Put? || actions[i].Delete?) && actions[i].kind == kind && actions[i].name == name)
  }

  /** A losing claim stores nothing: what is under the name stays, whoever else claims it. */
  lemma {:induction false} WinnerKeepsRecord(s: Store, actions: seq<Action>, kind: Kind, name: string)
    requires name in s.Of(kind) && LeavesAlone(actions, kind, name)
    ensures name in Run(s, actions).Of(kind) && Run(s, actions).Of(kind)[name] == s.Of(kind)[name]
    decreases |actions|
  {
    if actions == [] {
    } else {
      var a := actions[0];
      assert !((a.Put? || a.Delete?) && a.kind == kind && a.name == name);
      assert forall i :: 0 <= i < |actions[1..]| ==> actions[1..][i] == actions[i + 1];
      WinnerKeepsRecord(Step(s, a), actions[1..], kind, name);
    }
  }

  /** `name` has this record now, and every other name what it had. */
  ghost predicate Holds(before: map<string, Record>, after: map<string, Record>, name: string, record: Record) {
    && name in after && after[name] == record
    && forall n :: n != name ==> (n in after <==> n in before) && (n in after ==> after[n] == before[n])
  }

  /** `name` has no record now, and every other name what it had. */
  ghost predicate Gone(before: map<string, Record>, after: map<string, Record>, name: string) {
    && name !in after
    && forall n :: n != name ==> (n in after <==> n in before) && (n in after ==> after[n] == before[n])
  }

  /** What each transaction does to the two maps, said of the maps. */
  lemma StepMeans(s: Store, a: Action)
    ensures var t := Step(s, a);
            && (a.Claim? && (a.name in s.tables || a.name in s.views) ==> t == s)
            && (a.Claim? && a.name !in s.tables && a.name !in s.views ==>
                  if a.kind.Tables? then Holds(s.tables, t.tables, a.name, a.record) && t.views == s.views
                  else Holds(s.views, t.views, a.name, a.record) && t.tables == s.tables)
            && (a.Put? ==>
                  if a.kind.Tables? then Holds(s.tables, t.tables, a.name, a.record) && t.views == s.views
                  else Holds(s.views, t.views, a.name, a.record) && t.tables == s.tables)
            && (a.Delete? ==>
                  if a.kind.Tables? then Gone(s.tables, t.tables, a.name) && t.views == s.views
                  else Gone(s.views, t.views, a.name) && t.tables == s.tables)
  {
  }

  /** Dropping a relation frees its name: the next claim on it, of either kind, wins and is what the name holds. */
  lemma DeletedNameIsFree(s: Store, kind: Kind, name: string, next: Kind, record: Record)
    requires OneNamespace(s) && (if kind.Tables? then name in s.tables else name in s.views)
    ensures var freed := Step(s, Delete(kind, name));
            && name !in freed.tables && name !in freed.views
            && Wins(freed, Claim(next, name, record), name)
            && var t := Step(freed, Claim(next, name, record));
               if next.Tables? then name in t.tables && t.tables[name] == record
               else name in t.views && t.views[name] == record
  {
    StepMeans(s, Delete(kind, name));
    var freed := Step(s, Delete(kind, name));
    assert name in s.tables.Keys ==> name !in s.views.Keys;
    StepMeans(freed, Claim(next, name, record));
  }

  /** The store of the coordinator; every method is one write transaction. */
  class MetadataCatalog {
    var store: Store
    ghost var history: seq<Action>

    ghost predicate Valid()
      reads this
    {
      store == Run(EMPTY, history)
    }

    constructor ()
      ensures Valid() && history == []
    {
      store, history := EMPTY, [];
    }

    /** Claim `key` in `kind` when it is free there and in every kind of `alsoTakenIn`. */
    method ClaimName(kind: Kind, alsoTakenIn: seq<Kind>, key: string, value: Record) returns (claimed: bool)
      modifies this`store
      ensures claimed <==> key !in old(store).Of(kind)
                           && forall i :: 0 <= i < |alsoTakenIn| ==> key !in old(store).Of(alsoTakenIn[i])
      ensures store == if claimed then old(store).With(kind, old(store).Of(kind)[key := value]) else old(store)
    {
      var taken := false;
      for i := 0 to |alsoTakenIn|
        invariant taken <==> exists j :: 0 <= j < i && key in store.Of(alsoTakenIn[j])
        invariant store == old(store)
      {
        taken := taken || key in store.Of(alsoTakenIn[i]);
      }
      if taken || key in store.Of(kind) {
        return false;
      }
      store := store.With(kind, store.Of(kind)[key := value]);
      return true;
    }

    /** Won exactly when neither a table nor a view has the name, and then the table is there. */
    method CreateTableIfAbsent(name: string, meta: Record) returns (claimed: bool)
      requires Valid()
      modifies this
      ensures Valid() && history == old(history) + [Claim(Tables, name, meta)]
      ensures claimed <==> name !in old(store).tables && name !in old(store).views
      ensures store.tables == if claimed then old(store).tables[name := meta] else old(store).tables
      ensures store.views == old(store).views
    {
      RunStep(EMPTY, history, Claim(Tables, name, meta));
      claimed := ClaimName(Tables, [Views], name, meta);
      assert [Views][0] == Views;
      history := history + [Claim(Tables, name, meta)];
    }

    /** Won exactly when neither a table nor a view has the name, and then the view is there. */
    method CreateViewIfAbsent(name: string, meta: Record) returns (claimed: bool)
      requires Valid()
      modifies this
      ensures Valid() && history == old(history) + [Claim(Views, name, meta)]
      ensures claimed <==> name !in old(store).tables && name !in old(store).views
      ensures store.views == if claimed then old(store).views[name := meta] else old(store).views
      ensures store.tables == old(store).tables
    {
      RunStep(EMPTY, history, Claim(Views, name, meta));
      claimed := ClaimName(Views, [Tables], name, meta);
      assert [Tables][0] == Tables;
      history := history + [Claim(Views, name, meta)];
    }

    /** The upsert behind redefining a table or a view: the name has this record, and nothing else moved. */
    method PutRecord(kind: Kind, name: string, meta: Record)
      requires Valid()
      modifies this
      ensures Valid() && history == old(history) + [Put(kind, name, meta)]
      ensures kind.Tables? ==> Holds(old(store).tables, store.tables, name, meta) && store.views == old(store).views
      ensures kind.Views? ==> Holds(old(store).views, store.views, name, meta) && store.tables == old(store).tables
    {
      RunStep(EMPTY, history, Put(kind, name, meta));
      store := store.With(kind, store.Of(kind)[name := meta]);
      history := history + [Put(kind, name, meta)];
    }

    /** The record under the name is gone, and nothing else moved. */
    method DeleteRecord(kind: Kind, name: string)
      requires Valid()
      modifies this
      ensures Valid() && history == old(history) + [Delete(kind, name)]
      ensures kind.Tables? ==> Gone(old(store).tables, store.tables, name) && store.views == old(store).views
      ensures kind.Views? ==> Gone(old(store).views, store.views, name) && store.tables == old(store).tables
    {
      RunStep(EMPTY, history, Delete(kind, name));
      store := store.With(kind, store.Of(kind) - {name});
      history := history + [Delete(kind, name)];
    }
  }
}

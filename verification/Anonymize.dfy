/**
 The anonymizing rewrite: before an INSERT or UPDATE leaves the coordinator, every literal
 written to an anonymized column is replaced in place by its keyed digest, and a statement
 with a value that cannot be hashed there is refused. The digest itself is a parameter.
 */
module Anonymize {
  import opened Numeric
  import opened Arrangement

  const HMAC_SHA256_ALGO: string := "HMAC-SHA256"

  // ----- statements

  datatype Value =
    | Null
    | SingleQuoted(text: string)
    | DoubleQuoted(text: string)
    | Number(digits: string)
    | Boolean(truth: bool)
    | Placeholder(name: string)
    | OtherLiteral(shown: string)

  datatype Expr = Literal(value: Value) | Compound(shown: string)

  datatype Part = Ident(value: string) | Computed(shown: string)

  type ObjectName = seq<Part>

  datatype Source = Absent | Values(rows: seq<seq<Expr>>) | Query

  datatype Target = ColumnName(name: ObjectName) | Tuple(names: seq<ObjectName>)

  datatype Assignment = Assignment(target: Target, value: Expr)

  /** What an INSERT does with a row that is already there. */
  datatype OnInsert =
    | Fails
    | DoNothing
    | DoUpdate(assignments: seq<Assignment>)
    | DuplicateKeyUpdate(assignments: seq<Assignment>)
  {
    function Assignments(): seq<Assignment> {
      if DoUpdate? || DuplicateKeyUpdate? then assignments else []
    }
  }

  class Insert {
    const columns: seq<ObjectName>
    var source: Source
    var on: OnInsert

    constructor (columns: seq<ObjectName>, source: Source, on: OnInsert)
      ensures this.columns == columns && this.source == source && this.on == on
    {
      this.columns, this.source, this.on := columns, source, on;
    }
  }

  class Update {
    var assignments: seq<Assignment>

    constructor (assignments: seq<Assignment>)
      ensures this.assignments == assignments
    {
      this.assignments := assignments;
    }
  }

  datatype Statement = InsertInto(insert: Insert) | UpdateSet(update: Update) | OtherStatement

  // ----- secrets

  datatype Secret = Secret(algo: string, key: string)

  /** Where secrets are looked up; `asked` records the lookups. */
  class Resolver {
    const registered: map<string, Secret>
    ghost var asked: seq<string>

    constructor (registered: map<string, Secret>)
      ensures this.registered == registered && asked == []
    {
      this.registered, this.asked := registered, [];
    }

    method Resolve(id: string) returns (secret: Option<Secret>)
      modifies this
      ensures asked == old(asked) + [id]
      ensures secret == if id in registered then Some(registered[id]) else None
    {
      asked := asked + [id];
      secret := if id in registered then Some(registered[id]) else None;
    }
  }

  predicate Usable(registered: map<string, Secret>, id: string) {
    id in registered && registered[id].algo == HMAC_SHA256_ALGO
  }

  /** The lookups made since `before`, each secret asked for once and only those of `ids`. */
  ghost predicate AskedOnce(before: seq<string>, after: seq<string>, ids: seq<string>) {
    before <= after && Distinct(after[|before|..]) && forall id :: id in after[|before|..] ==> id in ids
  }

  /** Resolve every distinct id once; any that is missing or of another algorithm refuses them all. */
  method ResolveSecrets(ids: seq<string>, resolver: Resolver) returns (r: Option<map<string, Secret>>)
    modifies resolver
    ensures r.Some? <==> forall i :: 0 <= i < |ids| ==> Usable(resolver.registered, ids[i])
    ensures r.Some? ==> forall i :: 0 <= i < |ids| ==>
              ids[i] in r.value && r.value[ids[i]] == resolver.registered[ids[i]]
    ensures AskedOnce(old(resolver.asked), resolver.asked, ids)
  {
    var secrets: map<string, Secret> := map[];
    ghost var before := resolver.asked;
    for i := 0 to |ids|
      invariant forall j :: 0 <= j < i ==> ids[j] in secrets
      invariant forall id :: id in secrets ==> Usable(resolver.registered, id) && secrets[id] == resolver.registered[id]
      invariant AskedOnce(before, resolver.asked, ids)
      invariant forall id :: id in resolver.asked[|before|..] ==> id in secrets
    {
      if ids[i] !in secrets {
        AskedAgain(before, resolver.asked, ids, ids[i]);
        var secret := resolver.Resolve(ids[i]);
        if secret.None? || secret.value.algo != HMAC_SHA256_ALGO {
          return None;
        }
        secrets := secrets[ids[i] := secret.value];
      }
    }
    r := Some(secrets);
  }

  lemma AskedAgain(before: seq<string>, after: seq<string>, ids: seq<string>, id: string)
    requires AskedOnce(before, after, ids) && id in ids && id !in after[|before|..]
    ensures AskedOnce(before, after + [id], ids)
    ensures (after + [id])[|before|..] == after[|before|..] + [id]
  {
    assert (after + [id])[|before|..] == after[|before|..] + [id];
  }

  // ----- which columns, and what becomes of a value

  function LowerChar(c: char): char {
    if 'A' <= c <= 'Z' then (c as int + 32) as char else c
  }

  function LowerAscii(s: string): string {
    seq(|s|, i requires 0 <= i < |s| => LowerChar(s[i]))
  }

  /** What the declaration says of a column: hash it under a secret, leave it, or refuse the reference. */
  datatype Rule = Under(secret: string) | Plain | Unsupported

  function ColumnRule(column: ObjectName, anonymized: map<string, string>): Rule {
    if |column| == 1 && column[0].Ident? then
      var name := LowerAscii(column[0].value);
      if name in anonymized then Under(anonymized[name]) else Plain
    else Unsupported
  }

  // ----- which columns, said of the names

  predicate IsUpper(c: char) {
    'A' <= c <= 'Z'
  }

  /** The same character, or the two cases of one ASCII letter. */
  predicate SameLetter(c: char, d: char) {
    || c == d
    || (IsUpper(c) && d as int == c as int + ('a' as int - 'A' as int))
    || (IsUpper(d) && c as int == d as int + ('a' as int - 'A' as int))
  }

  predicate SameName(a: string, b: string) {
    |a| == |b| && forall i :: 0 <= i < |a| ==> SameLetter(a[i], b[i])
  }

  predicate LowerCase(s: string) {
    forall i :: 0 <= i < |s| ==> !IsUpper(s[i])
  }

  predicate Bare(column: ObjectName) {
    |column| == 1 && column[0].Ident?
  }

  /** The declaration has a lower-case name equal to the column's up to case, with this secret. */
  ghost predicate Declares(anonymized: map<string, string>, column: ObjectName, id: string) {
    Bare(column) && exists key :: key in anonymized && LowerCase(key) && SameName(key, column[0].value) && anonymized[key] == id
  }

  lemma LoweredName(name: string)
    ensures LowerCase(LowerAscii(name)) && SameName(LowerAscii(name), name)
  {
  }

  lemma LoweredIsOnly(key: string, name: string)
    requires LowerCase(key) && SameName(key, name)
    ensures key == LowerAscii(name)
  {
    forall i | 0 <= i < |key|
      ensures key[i] == LowerAscii(name)[i]
    {
      assert SameLetter(key[i], name[i]) && !IsUpper(key[i]);
    }
  }

  /** Names that differ in case alone have the same rule. */
  lemma CaseNeverSkips(a: string, b: string, anonymized: map<string, string>)
    requires SameName(a, b)
    ensures ColumnRule([Ident(a)], anonymized) == ColumnRule([Ident(b)], anonymized)
  {
    forall i | 0 <= i < |a|
      ensures LowerAscii(a)[i] == LowerAscii(b)[i]
    {
      assert SameLetter(a[i], b[i]);
    }
    assert LowerAscii(a) == LowerAscii(b);
  }

  /** The rule of a column is what the declaration says of its name. */
  lemma RuleMeans(column: ObjectName, anonymized: map<string, string>)
    ensures ColumnRule(column, anonymized) == Unsupported <==> !Bare(column)
    ensures forall id :: ColumnRule(column, anonymized) == Under(id) <==> Declares(anonymized, column, id)
  {
    if Bare(column) {
      var name := column[0].value;
      LoweredName(name);
      forall key | key in anonymized && LowerCase(key) && SameName(key, name)
        ensures key == LowerAscii(name)
      {
        LoweredIsOnly(key, name);
      }
    }
  }

  predicate Hashable(e: Expr) {
    e.Literal? && !e.value.Placeholder?
  }

  function TextOf(v: Value): string {
    match v
    case Null => ""
    case SingleQuoted(text) => text
    case DoubleQuoted(text) => text
    case Number(digits) => digits
    case Boolean(truth) => if truth then "true" else "false"
    case Placeholder(name) => name
    case OtherLiteral(shown) => shown
  }

  type Hmac = (string, string) -> string

  /** What a value written to an anonymized column has to become. */
  ghost predicate IsAnonymized(before: Expr, after: Expr, key: string, hmac: Hmac) {
    && Hashable(before)
    && after == if before.value.Null? then before else Literal(SingleQuoted(hmac(key, TextOf(before.value))))
  }

  /** Replace one literal by its digest, or refuse it. */
  method AnonymizeExpr(e: Expr, secret: Secret, hmac: Hmac) returns (r: Option<Expr>)
    ensures r.Some? <==> Hashable(e)
    ensures r.Some? ==> IsAnonymized(e, r.value, secret.key, hmac)
  {
    match e {
      case Compound(_) =>
        return None;
      case Literal(value) =>
        if value.Null? {
          return Some(e);
        }
        if value.Placeholder? {
          return None;
        }
        return Some(Literal(SingleQuoted(hmac(secret.key, TextOf(value)))));
    }
  }

  // ----- the targets of a list of columns

  datatype Hit = Hit(index: nat, secret: string)

  /** The columns under a rule, in order. */
  ghost predicate AreHits(rules: seq<Rule>, hits: seq<Hit>) {
    && (forall k :: 0 <= k < |hits| ==> hits[k].index < |rules| && rules[hits[k].index] == Under(hits[k].secret))
    && (forall k, l :: 0 <= k < l < |hits| ==> hits[k].index < hits[l].index)
    && (forall j :: 0 <= j < |rules| && rules[j].Under? ==> Hit(j, rules[j].secret) in hits)
  }

  lemma NextRule(rules: seq<Rule>, hits: seq<Hit>, rule: Rule)
    requires AreHits(rules, hits)
    ensures AreHits(rules + [rule], if rule.Under? then hits + [Hit(|rules|, rule.secret)] else hits)
  {
    var hits' := if rule.Under? then hits + [Hit(|rules|, rule.secret)] else hits;
    forall j | 0 <= j < |rules + [rule]| && (rules + [rule])[j].Under?
      ensures Hit(j, (rules + [rule])[j].secret) in hits'
    {
      if j < |rules| {
        assert (rules + [rule])[j] == rules[j];
        assert Hit(j, rules[j].secret) in hits;
      } else {
        assert hits'[|hits|] == Hit(j, rule.secret);
      }
    }
  }

  /** The first place past the hits handled so far; nothing is under a rule between two hits. */
  function Frontier(rules: seq<Rule>, hits: seq<Hit>, done: nat): nat
    requires done <= |hits|
  {
    if done < |hits| then hits[done].index else |rules|
  }

  lemma NothingBetweenHits(rules: seq<Rule>, hits: seq<Hit>, done: nat, j: nat)
    requires AreHits(rules, hits) && done < |hits|
    requires hits[done].index < j < Frontier(rules, hits, done + 1) && j < |rules|
    ensures !rules[j].Under?
  {
    forall k | 0 <= k < |hits|
      ensures hits[k].index != j
    {
      assert k < done ==> hits[k].index < hits[done].index;
      assert done + 1 < k ==> hits[done + 1].index < hits[k].index;
    }
  }

  lemma NothingBeforeHits(rules: seq<Rule>, hits: seq<Hit>, j: nat)
    requires AreHits(rules, hits) && j < Frontier(rules, hits, 0) && j < |rules|
    ensures !rules[j].Under?
  {
    forall k | 0 <= k < |hits|
      ensures hits[k].index != j
    {
      assert 0 < k ==> hits[0].index < hits[k].index;
    }
  }

  // ----- rewriting a row of expressions

  /** Cell `j` of a row, before and after: hashed under its column's secret, or left alone. */
  ghost predicate CellDone(rules: seq<Rule>, registered: map<string, Secret>, hmac: Hmac, j: nat, before: Expr, after: Expr) {
    if j < |rules| && rules[j].Under? then
      rules[j].secret in registered && IsAnonymized(before, after, registered[rules[j].secret].key, hmac)
    else after == before
  }

  ghost predicate RowDone(rules: seq<Rule>, registered: map<string, Secret>, hmac: Hmac, before: seq<Expr>, after: seq<Expr>) {
    |after| == |before| && forall j :: 0 <= j < |before| ==> CellDone(rules, registered, hmac, j, before[j], after[j])
  }

  ghost predicate RowHashable(rules: seq<Rule>, row: seq<Expr>) {
    forall j :: 0 <= j < |row| && j < |rules| && rules[j].Under? ==> Hashable(row[j])
  }

  /** Part of the way through a row: done before the frontier, untouched from it on. */
  ghost predicate RowUpTo(rules: seq<Rule>, registered: map<string, Secret>, hmac: Hmac, frontier: nat, before: seq<Expr>, after: seq<Expr>) {
    && |after| == |before|
    && forall j :: 0 <= j < |before| ==>
         if j < frontier then CellDone(rules, registered, hmac, j, before[j], after[j]) else after[j] == before[j]
  }

  ghost predicate Secured(hits: seq<Hit>, secrets: map<string, Secret>, registered: map<string, Secret>) {
    forall k :: 0 <= k < |hits| ==>
      hits[k].secret in secrets && hits[k].secret in registered && secrets[hits[k].secret] == registered[hits[k].secret]
  }

  lemma FrontierMoves(rules: seq<Rule>, registered: map<string, Secret>, hmac: Hmac, hits: seq<Hit>, done: nat,
                      before: seq<Expr>, row: seq<Expr>, row': seq<Expr>)
    requires AreHits(rules, hits) && done < |hits|
    requires RowUpTo(rules, registered, hmac, hits[done].index, before, row)
    requires |row'| == |row| && forall j :: 0 <= j < |row| && j != hits[done].index ==> row'[j] == row[j]
    requires hits[done].index < |row| ==>
               CellDone(rules, registered, hmac, hits[done].index, before[hits[done].index], row'[hits[done].index])
    ensures RowUpTo(rules, registered, hmac, Frontier(rules, hits, done + 1), before, row')
  {
    var here, next := hits[done].index, Frontier(rules, hits, done + 1);
    forall j | 0 <= j < |before|
      ensures if j < next then CellDone(rules, registered, hmac, j, before[j], row'[j]) else row'[j] == before[j]
    {
      assert here < next;
      if here < j < next && j < |rules| {
        NothingBetweenHits(rules, hits, done, j);
      }
    }
  }

  /** Hash the cells the hits name; the row comes back as far as it got. */
  method AnonymizeRow(row: seq<Expr>, hits: seq<Hit>, secrets: map<string, Secret>, hmac: Hmac,
                      ghost rules: seq<Rule>, ghost registered: map<string, Secret>)
    returns (ok: bool, r: seq<Expr>)
    requires AreHits(rules, hits) && Secured(hits, secrets, registered)
    ensures ok <==> RowHashable(rules, row)
    ensures ok ==> RowDone(rules, registered, hmac, row, r)
    ensures |r| == |row|
    ensures forall j :: 0 <= j < |row| ==> r[j] == row[j] || CellDone(rules, registered, hmac, j, row[j], r[j])
  {
    r := row;
    forall j | 0 <= j < |row| && j < Frontier(rules, hits, 0)
      ensures CellDone(rules, registered, hmac, j, row[j], r[j])
    {
      if j < |rules| {
        NothingBeforeHits(rules, hits, j);
      }
    }
    for k := 0 to |hits|
      invariant RowUpTo(rules, registered, hmac, Frontier(rules, hits, k), row, r)
      invariant forall l :: 0 <= l < k && hits[l].index < |row| ==> Hashable(row[hits[l].index])
    {
      var index := hits[k].index;
      ghost var was := r;
      if index < |r| {
        var hashed := AnonymizeExpr(r[index], secrets[hits[k].secret], hmac);
        if hashed.None? {
          return false, r;
        }
        r := r[index := hashed.value];
      }
      FrontierMoves(rules, registered, hmac, hits, k, row, was, r);
    }
    return true, r;
  }

  // ----- INSERT

  function Rules(columns: seq<ObjectName>, anonymized: map<string, string>): seq<Rule> {
    seq(|columns|, i requires 0 <= i < |columns| => ColumnRule(columns[i], anonymized))
  }

  ghost predicate AllUsable(rules: seq<Rule>, registered: map<string, Secret>) {
    forall j :: 0 <= j < |rules| && rules[j].Under? ==> Usable(registered, rules[j].secret)
  }

  ghost predicate AnyUnder(rules: seq<Rule>) {
    exists j :: 0 <= j < |rules| && rules[j].Under?
  }

  function SecretsOf(hits: seq<Hit>): seq<string> {
    seq(|hits|, k requires 0 <= k < |hits| => hits[k].secret)
  }

  /** The hits of a list of rules cover its secrets. */
  lemma HitsCover(rules: seq<Rule>, hits: seq<Hit>, registered: map<string, Secret>)
    requires AreHits(rules, hits)
    ensures AnyUnder(rules) <==> hits != []
    ensures AllUsable(rules, registered)
            <==> forall k :: 0 <= k < |SecretsOf(hits)| ==> Usable(registered, SecretsOf(hits)[k])
  {
    var ids := SecretsOf(hits);
    if hits != [] {
      assert rules[hits[0].index].Under?;
    }
    if AllUsable(rules, registered) {
      forall k | 0 <= k < |ids|
        ensures Usable(registered, ids[k])
      {
        assert rules[hits[k].index] == Under(ids[k]);
      }
    }
    if forall k :: 0 <= k < |ids| ==> Usable(registered, ids[k]) {
      forall j | 0 <= j < |rules| && rules[j].Under?
        ensures Usable(registered, rules[j].secret)
      {
        var k :| 0 <= k < |hits| && hits[k] == Hit(j, rules[j].secret);
        assert ids[k] == rules[j].secret;
      }
    }
  }

  lemma RulesStep(columns: seq<ObjectName>, anonymized: map<string, string>, i: nat)
    requires i < |columns|
    ensures Rules(columns[..i + 1], anonymized) == Rules(columns[..i], anonymized) + [ColumnRule(columns[i], anonymized)]
    ensures ColumnRule(columns[i], anonymized) in Rules(columns, anonymized)
  {
    assert Rules(columns, anonymized)[i] == ColumnRule(columns[i], anonymized);
  }

  /** Look each listed column up; a reference that is not a bare name is refused. */
  method FindHits(columns: seq<ObjectName>, anonymized: map<string, string>) returns (r: Option<seq<Hit>>)
    ensures r.Some? <==> Unsupported !in Rules(columns, anonymized)
    ensures r.Some? ==> AreHits(Rules(columns, anonymized), r.value)
  {
    var hits: seq<Hit> := [];
    for i := 0 to |columns|
      invariant Unsupported !in Rules(columns[..i], anonymized)
      invariant AreHits(Rules(columns[..i], anonymized), hits)
    {
      var rule := ColumnRule(columns[i], anonymized);
      RulesStep(columns, anonymized, i);
      if rule == Unsupported {
        return None;
      }
      NextRule(Rules(columns[..i], anonymized), hits, rule);
      if rule.Under? {
        hits := hits + [Hit(i, rule.secret)];
      }
    }
    assert columns[..|columns|] == columns;
    r := Some(hits);
  }

  ghost predicate RowsDone(rules: seq<Rule>, registered: map<string, Secret>, hmac: Hmac, before: seq<seq<Expr>>, after: seq<seq<Expr>>) {
    |after| == |before| && forall i :: 0 <= i < |before| ==> RowDone(rules, registered, hmac, before[i], after[i])
  }

  /** What an accepted INSERT has become. */
  ghost predicate InsertDone(rules: seq<Rule>, registered: map<string, Secret>, hmac: Hmac, before: Source, after: Source) {
    if before.Values? then after.Values? && RowsDone(rules, registered, hmac, before.rows, after.rows)
    else after == before
  }

  /** Two cells a storage node could not tell apart: equal, or of equal digest where the column is hashed. */
  ghost predicate SameDigest(rules: seq<Rule>, registered: map<string, Secret>, hmac: Hmac, j: nat, a: Expr, b: Expr) {
    if j < |rules| && rules[j].Under? && rules[j].secret in registered && Hashable(a) && Hashable(b) then
      && (a.value.Null? <==> b.value.Null?)
      && hmac(registered[rules[j].secret].key, TextOf(a.value)) == hmac(registered[rules[j].secret].key, TextOf(b.value))
    else a == b
  }

  /** Nothing of an anonymized value in a row but its digest leaves: rows alike up to digests come out the same. */
  lemma OnlyDigestsLeave(rules: seq<Rule>, registered: map<string, Secret>, hmac: Hmac,
                         a: seq<Expr>, b: seq<Expr>, a': seq<Expr>, b': seq<Expr>)
    requires RowDone(rules, registered, hmac, a, a') && RowDone(rules, registered, hmac, b, b')
    requires |a| == |b| && forall j :: 0 <= j < |a| ==> SameDigest(rules, registered, hmac, j, a[j], b[j])
    ensures a' == b'
  {
    forall j | 0 <= j < |a|
      ensures a'[j] == b'[j]
    {
      assert SameDigest(rules, registered, hmac, j, a[j], b[j]);
      assert CellDone(rules, registered, hmac, j, a[j], a'[j]);
      assert CellDone(rules, registered, hmac, j, b[j], b'[j]);
    }
  }

  /** The same for whole INSERTs: VALUES alike up to digests go out the same. */
  lemma OnlyDigestsLeaveValues(rules: seq<Rule>, registered: map<string, Secret>, hmac: Hmac,
                               a: Source, b: Source, a': Source, b': Source)
    requires a.Values? && b.Values? && |a.rows| == |b.rows|
    requires InsertDone(rules, registered, hmac, a, a') && InsertDone(rules, registered, hmac, b, b')
    requires forall i :: 0 <= i < |a.rows| ==>
               && |a.rows[i]| == |b.rows[i]|
               && forall j :: 0 <= j < |a.rows[i]| ==>
                    SameDigest(rules, registered, hmac, j, a.rows[i][j], b.rows[i][j])
    ensures a' == b'
  {
    forall i | 0 <= i < |a.rows|
      ensures a'.rows[i] == b'.rows[i]
    {
      assert RowDone(rules, registered, hmac, a.rows[i], a'.rows[i]);
      assert RowDone(rules, registered, hmac, b.rows[i], b'.rows[i]);
      OnlyDigestsLeave(rules, registered, hmac, a.rows[i], b.rows[i], a'.rows[i], b'.rows[i]);
    }
  }

  /** An INSERT that can be rewritten: every anonymized value is a literal in the statement. */
  ghost predicate InsertAccepted(rules: seq<Rule>, registered: map<string, Secret>, source: Source) {
    && Unsupported !in rules
    && (AnyUnder(rules) ==>
          && AllUsable(rules, registered)
          && !source.Query?
          && (source.Values? ==> forall i :: 0 <= i < |source.rows| ==> RowHashable(rules, source.rows[i])))
  }

  lemma NoRuleNoChange(rules: seq<Rule>, registered: map<string, Secret>, hmac: Hmac, row: seq<Expr>)
    requires !AnyUnder(rules)
    ensures RowDone(rules, registered, hmac, row, row)
  {
  }

  /** Hash every row in place, one after the other, as far as they can be hashed. */
  method AnonymizeRows(insert: Insert, hits: seq<Hit>, secrets: map<string, Secret>, hmac: Hmac,
                       ghost rules: seq<Rule>, ghost registered: map<string, Secret>)
    returns (ok: bool)
    requires AreHits(rules, hits) && Secured(hits, secrets, registered) && insert.source.Values?
    modifies insert`source
    ensures insert.source.Values?
    ensures ok <==> forall i :: 0 <= i < |old(insert.source).rows| ==> RowHashable(rules, old(insert.source).rows[i])
    ensures ok ==> RowsDone(rules, registered, hmac, old(insert.source).rows, insert.source.rows)
  {
    ghost var before := insert.source.rows;
    for i := 0 to |insert.source.rows|
      invariant insert.source.Values? && |insert.source.rows| == |before|
      invariant forall l :: 0 <= l < i ==>
                  RowHashable(rules, before[l]) && RowDone(rules, registered, hmac, before[l], insert.source.rows[l])
      invariant forall l :: i <= l < |before| ==> insert.source.rows[l] == before[l]
    {
      var fine, row := AnonymizeRow(insert.source.rows[i], hits, secrets, hmac, rules, registered);
      insert.source := Values(insert.source.rows[i := row]);
      if !fine {
        return false;
      }
    }
    return true;
  }

  /**
   Rewrite an INSERT: refused exactly when its VALUES cannot be, and otherwise they are done cell
   by cell. The ON CONFLICT clause is not looked at.
   */
  method AnonymizeInsert(insert: Insert, anonymized: map<string, string>, resolver: Resolver, hmac: Hmac)
    returns (ok: bool)
    modifies insert`source, resolver
    ensures ok <==> InsertAccepted(Rules(insert.columns, anonymized), resolver.registered, old(insert.source))
    ensures ok ==> InsertDone(Rules(insert.columns, anonymized), resolver.registered, hmac,
                              old(insert.source), insert.source)
    ensures insert.on == old(insert.on)
    ensures old(resolver.asked) <= resolver.asked && Distinct(resolver.asked[|old(resolver.asked)|..])
  {
    ghost var rules, before := Rules(insert.columns, anonymized), insert.source;
    var found := FindHits(insert.columns, anonymized);
    if found.None? {
      return false;
    }
    var hits := found.value;
    HitsCover(rules, hits, resolver.registered);
    if hits == [] {
      UntouchedInsert(rules, resolver.registered, hmac, before);
      return true;
    }
    var secrets := ResolveSecrets(SecretsOf(hits), resolver);
    if secrets.None? {
      return false;
    }
    if insert.source.Absent? {
      return true;
    }
    if !insert.source.Values? {
      return false;
    }
    HitsSecured(hits, secrets.value, resolver.registered);
    ok := AnonymizeRows(insert, hits, secrets.value, hmac, rules, resolver.registered);
  }

  lemma UntouchedInsert(rules: seq<Rule>, registered: map<string, Secret>, hmac: Hmac, source: Source)
    requires !AnyUnder(rules)
    ensures InsertDone(rules, registered, hmac, source, source)
  {
    if source.Values? {
      forall i | 0 <= i < |source.rows|
        ensures RowDone(rules, registered, hmac, source.rows[i], source.rows[i])
      {
        NoRuleNoChange(rules, registered, hmac, source.rows[i]);
      }
    }
  }

  lemma HitsSecured(hits: seq<Hit>, secrets: map<string, Secret>, registered: map<string, Secret>)
    requires forall k :: 0 <= k < |SecretsOf(hits)| ==>
               && Usable(registered, SecretsOf(hits)[k])
               && SecretsOf(hits)[k] in secrets
               && secrets[SecretsOf(hits)[k]] == registered[SecretsOf(hits)[k]]
    ensures Secured(hits, secrets, registered)
  {
    forall k | 0 <= k < |hits|
      ensures hits[k].secret in secrets && hits[k].secret in registered
              && secrets[hits[k].secret] == registered[hits[k].secret]
    {
      assert SecretsOf(hits)[k] == hits[k].secret;
    }
  }

  // ----- UPDATE

  /** What the declaration says of one assignment; a tuple may name no anonymized column. */
  function TargetRule(target: Target, anonymized: map<string, string>): Rule {
    match target
    case ColumnName(name) => ColumnRule(name, anonymized)
    case Tuple(names) =>
      if forall i :: 0 <= i < |names| ==> ColumnRule(names[i], anonymized) == Plain then Plain else Unsupported
  }

  function TargetRules(assignments: seq<Assignment>, anonymized: map<string, string>): seq<Rule> {
    seq(|assignments|, i requires 0 <= i < |assignments| => TargetRule(assignments[i].target, anonymized))
  }

  method TupleIsPlain(names: seq<ObjectName>, anonymized: map<string, string>) returns (plain: bool)
    ensures plain <==> TargetRule(Tuple(names), anonymized) == Plain
  {
    for i := 0 to |names|
      invariant forall j :: 0 <= j < i ==> ColumnRule(names[j], anonymized) == Plain
    {
      if ColumnRule(names[i], anonymized) != Plain {
        return false;
      }
    }
    return true;
  }

  method FindTargets(assignments: seq<Assignment>, anonymized: map<string, string>) returns (r: Option<seq<Hit>>)
    ensures r.Some? <==> Unsupported !in TargetRules(assignments, anonymized)
    ensures r.Some? ==> AreHits(TargetRules(assignments, anonymized), r.value)
  {
    var hits: seq<Hit> := [];
    for i := 0 to |assignments|
      invariant Unsupported !in TargetRules(assignments[..i], anonymized)
      invariant AreHits(TargetRules(assignments[..i], anonymized), hits)
    {
      var target := assignments[i].target;
      ghost var rule := TargetRule(target, anonymized);
      assert TargetRules(assignments[..i + 1], anonymized) == TargetRules(assignments[..i], anonymized) + [rule];
      assert TargetRules(assignments, anonymized)[i] == rule;
      NextRule(TargetRules(assignments[..i], anonymized), hits, rule);
      match target {
        case ColumnName(name) =>
          var secret := ColumnRule(name, anonymized);
          if secret == Unsupported {
            return None;
          }
          if secret.Under? {
            hits := hits + [Hit(i, secret.secret)];
          }
        case Tuple(names) =>
          var plain := TupleIsPlain(names, anonymized);
          if !plain {
            return None;
          }
      }
    }
    assert assignments[..|assignments|] == assignments;
    r := Some(hits);
  }

  function ValuesOf(assignments: seq<Assignment>): seq<Expr> {
    seq(|assignments|, i requires 0 <= i < |assignments| => assignments[i].value)
  }

  ghost predicate UpdateAccepted(rules: seq<Rule>, registered: map<string, Secret>, assignments: seq<Assignment>) {
    && Unsupported !in rules
    && (AnyUnder(rules) ==> AllUsable(rules, registered) && RowHashable(rules, ValuesOf(assignments)))
  }

  /** What an accepted UPDATE has become: the same targets, the values done one by one. */
  ghost predicate UpdateDone(rules: seq<Rule>, registered: map<string, Secret>, hmac: Hmac,
                             before: seq<Assignment>, after: seq<Assignment>) {
    && |after| == |before|
    && (forall i :: 0 <= i < |before| ==> after[i].target == before[i].target)
    && RowDone(rules, registered, hmac, ValuesOf(before), ValuesOf(after))
  }

  /** Rewrite the assignments of an UPDATE. */
  method AnonymizeAssignments(update: Update, anonymized: map<string, string>, resolver: Resolver, hmac: Hmac)
    returns (ok: bool)
    modifies update, resolver
    ensures ok <==> UpdateAccepted(TargetRules(old(update.assignments), anonymized), resolver.registered,
                                   old(update.assignments))
    ensures ok ==> UpdateDone(TargetRules(old(update.assignments), anonymized), resolver.registered, hmac,
                              old(update.assignments), update.assignments)
    ensures old(resolver.asked) <= resolver.asked && Distinct(resolver.asked[|old(resolver.asked)|..])
  {
    var before := update.assignments;
    ghost var rules := TargetRules(before, anonymized);
    var found := FindTargets(before, anonymized);
    if found.None? {
      return false;
    }
    var hits := found.value;
    HitsCover(rules, hits, resolver.registered);
    if hits == [] {
      NoRuleNoChange(rules, resolver.registered, hmac, ValuesOf(before));
      return true;
    }
    var secrets := ResolveSecrets(SecretsOf(hits), resolver);
    if secrets.None? {
      return false;
    }
    HitsSecured(hits, secrets.value, resolver.registered);
    var values: seq<Expr>;
    ok, values := AnonymizeRow(ValuesOf(before), hits, secrets.value, hmac, rules, resolver.registered);
    update.assignments := seq(|before|, i requires 0 <= i < |before| && |values| == |before| =>
      before[i].(value := values[i]));
    assert ValuesOf(update.assignments) == values;
  }

  // ----- ON CONFLICT

  /** What a value assigned to a column under a rule has to become; NULL needs no secret. */
  ghost predicate ValueDone(rule: Rule, registered: map<string, Secret>, hmac: Hmac, before: Expr, after: Expr) {
    match rule
    case Plain => after == before
    case Unsupported => false
    case Under(id) =>
      || (before == Literal(Null) && after == before)
      || (id in registered && IsAnonymized(before, after, registered[id].key, hmac))
  }

  /** The assignments of a conflict clause meet what is promised of every value written. */
  ghost predicate ConflictDone(anonymized: map<string, string>, registered: map<string, Secret>, hmac: Hmac,
                               before: seq<Assignment>, after: seq<Assignment>) {
    && |after| == |before|
    && forall i :: 0 <= i < |before| ==>
         && after[i].target == before[i].target
         && ValueDone(TargetRule(before[i].target, anonymized), registered, hmac, before[i].value, after[i].value)
  }

  /** Everything an INSERT writes to an anonymized column leaves as NULL or a digest. */
  ghost predicate PromiseKept(columns: seq<ObjectName>, anonymized: map<string, string>,
                              registered: map<string, Secret>, hmac: Hmac,
                              source: Source, source': Source, on: OnInsert, on': OnInsert) {
    && InsertDone(Rules(columns, anonymized), registered, hmac, source, source')
    && ConflictDone(anonymized, registered, hmac, on.Assignments(), on'.Assignments())
  }

  /** A text that is its own digest. */
  ghost predicate OwnDigest(rule: Rule, registered: map<string, Secret>, hmac: Hmac, e: Expr) {
    && rule.Under? && rule.secret in registered && e.Literal? && e.value.SingleQuoted?
    && hmac(registered[rule.secret].key, e.value.text) == e.value.text
  }

  /** Nothing to hide in an assignment: the column is not anonymized, or it is set to NULL. */
  predicate SetsNothing(anonymized: map<string, string>, a: Assignment) {
    var rule := TargetRule(a.target, anonymized);
    rule == Plain || (rule.Under? && a.value == Literal(Null))
  }

  /**
   What an accepted INSERT keeps of the promise, its conflict clause going out as it came in: all
   of it if and only if every assignment of the clause sets nothing, or a text that is its own
   digest.
   */
  lemma InsertKeepsPromise(columns: seq<ObjectName>, anonymized: map<string, string>,
                           registered: map<string, Secret>, hmac: Hmac,
                           source: Source, source': Source, on: OnInsert)
    requires InsertDone(Rules(columns, anonymized), registered, hmac, source, source')
    ensures PromiseKept(columns, anonymized, registered, hmac, source, source', on, on)
            <==> forall a <- on.Assignments() ::
                   || SetsNothing(anonymized, a)
                   || OwnDigest(TargetRule(a.target, anonymized), registered, hmac, a.value)
  {
    var all := on.Assignments();
    forall i | 0 <= i < |all|
      ensures ValueDone(TargetRule(all[i].target, anonymized), registered, hmac, all[i].value, all[i].value)
              <==> SetsNothing(anonymized, all[i])
                   || OwnDigest(TargetRule(all[i].target, anonymized), registered, hmac, all[i].value)
    {
    }
    if PromiseKept(columns, anonymized, registered, hmac, source, source', on, on) {
      forall a <- all
        ensures SetsNothing(anonymized, a) || OwnDigest(TargetRule(a.target, anonymized), registered, hmac, a.value)
      {
        var i :| 0 <= i < |all| && all[i] == a;
      }
    }
  }

  /** With a digest no text is its own of, the clause may give an anonymized column NULL and nothing else. */
  lemma InsertKeepsPromiseExactly(columns: seq<ObjectName>, anonymized: map<string, string>,
                                  registered: map<string, Secret>, hmac: Hmac,
                                  source: Source, source': Source, on: OnInsert)
    requires InsertDone(Rules(columns, anonymized), registered, hmac, source, source')
    requires forall key, text :: hmac(key, text) != text
    ensures PromiseKept(columns, anonymized, registered, hmac, source, source', on, on)
            <==> forall a <- on.Assignments() :: SetsNothing(anonymized, a)
  {
    InsertKeepsPromise(columns, anonymized, registered, hmac, source, source', on);
  }

  /** An accepted INSERT that updates the anonymized column of a row already there, to a literal or an expression. */
  lemma ConflictClausePassesThrough(hmac: Hmac, key: string, source': Source, value: Expr)
    requires value == Literal(SingleQuoted("plain@x.com")) || value == Compound("lower(name)")
    requires hmac(key, "plain@x.com") != "plain@x.com"
    ensures var columns, anonymized := [[Ident("id")], [Ident("email")]], map["email" := "s"];
            var registered := map["s" := Secret(HMAC_SHA256_ALGO, key)];
            var source := Values([[Literal(Number("1")), Literal(SingleQuoted("a"))]]);
            var on := DoUpdate([Assignment(ColumnName([Ident("email")]), value)]);
            && InsertAccepted(Rules(columns, anonymized), registered, source)
            && !PromiseKept(columns, anonymized, registered, hmac, source, source', on, on)
  {
    var anonymized := map["email" := "s"];
    assert LowerAscii("email") == "email" && LowerAscii("id") == "id";
    assert ColumnRule([Ident("email")], anonymized) == Under("s") && ColumnRule([Ident("id")], anonymized) == Plain;
    var a := Assignment(ColumnName([Ident("email")]), value);
    assert DoUpdate([a]).Assignments()[0] == a;
  }

  // ----- what a caller is promised, said of the columns and the literals

  /** What each kind of literal becomes. */
  ghost predicate HashedTo(before: Expr, after: Expr, key: string, hmac: Hmac) {
    before.Literal? &&
    match before.value
    case Null => after == Literal(Null)
    case SingleQuoted(text) => after == Literal(SingleQuoted(hmac(key, text)))
    case DoubleQuoted(text) => after == Literal(SingleQuoted(hmac(key, text)))
    case Number(digits) => after == Literal(SingleQuoted(hmac(key, digits)))
    case Boolean(truth) => after == Literal(SingleQuoted(hmac(key, if truth then "true" else "false")))
    case Placeholder(_) => false
    case OtherLiteral(shown) => after == Literal(SingleQuoted(hmac(key, shown)))
  }

  /** A value written to a column: hashed under the declared secret, or as it was when none is declared. */
  ghost predicate WrittenTo(column: ObjectName, anonymized: map<string, string>, registered: map<string, Secret>,
                            hmac: Hmac, before: Expr, after: Expr) {
    && (forall id :: Declares(anonymized, column, id) ==> id in registered && HashedTo(before, after, registered[id].key, hmac))
    && ((forall id :: !Declares(anonymized, column, id)) ==> after == before)
  }

  lemma DoneIsWritten(column: ObjectName, anonymized: map<string, string>, registered: map<string, Secret>,
                      hmac: Hmac, rules: seq<Rule>, j: nat, before: Expr, after: Expr)
    requires j < |rules| && rules[j] == ColumnRule(column, anonymized) && rules[j] != Unsupported
    requires CellDone(rules, registered, hmac, j, before, after)
    ensures WrittenTo(column, anonymized, registered, hmac, before, after)
  {
    RuleMeans(column, anonymized);
    if rules[j].Under? {
      assert Declares(anonymized, column, rules[j].secret);
    }
  }

  /** Every cell of an accepted INSERT, by its column; a cell past the listed columns is as it was. */
  lemma InsertForCaller(columns: seq<ObjectName>, anonymized: map<string, string>, registered: map<string, Secret>,
                        hmac: Hmac, before: Source, after: Source)
    requires Unsupported !in Rules(columns, anonymized) && before.Values?
    requires InsertDone(Rules(columns, anonymized), registered, hmac, before, after)
    ensures after.Values? && |after.rows| == |before.rows|
    ensures forall i, j :: 0 <= i < |before.rows| && 0 <= j < |before.rows[i]| ==>
              && |after.rows[i]| == |before.rows[i]|
              && if j < |columns|
                 then WrittenTo(columns[j], anonymized, registered, hmac, before.rows[i][j], after.rows[i][j])
                 else after.rows[i][j] == before.rows[i][j]
  {
    var rules := Rules(columns, anonymized);
    forall i, j | 0 <= i < |before.rows| && 0 <= j < |before.rows[i]|
      ensures && |after.rows[i]| == |before.rows[i]|
              && if j < |columns|
                 then WrittenTo(columns[j], anonymized, registered, hmac, before.rows[i][j], after.rows[i][j])
                 else after.rows[i][j] == before.rows[i][j]
    {
      assert RowDone(rules, registered, hmac, before.rows[i], after.rows[i]);
      assert CellDone(rules, registered, hmac, j, before.rows[i][j], after.rows[i][j]);
      if j < |columns| {
        assert rules[j] in rules;
        DoneIsWritten(columns[j], anonymized, registered, hmac, rules, j, before.rows[i][j], after.rows[i][j]);
      }
    }
  }

  /** Every assignment of an accepted UPDATE, by its column. */
  lemma UpdateForCaller(anonymized: map<string, string>, registered: map<string, Secret>, hmac: Hmac,
                        before: seq<Assignment>, after: seq<Assignment>, i: nat)
    requires Unsupported !in TargetRules(before, anonymized) && i < |before|
    requires UpdateDone(TargetRules(before, anonymized), registered, hmac, before, after)
    ensures |after| == |before| && after[i].target == before[i].target
    ensures before[i].target.ColumnName? ==>
              WrittenTo(before[i].target.name, anonymized, registered, hmac, before[i].value, after[i].value)
    ensures before[i].target.Tuple? ==>
              && after[i].value == before[i].value
              && forall k, id :: 0 <= k < |before[i].target.names| ==> !Declares(anonymized, before[i].target.names[k], id)
  {
    var rules := TargetRules(before, anonymized);
    assert rules[i] in rules;
    assert CellDone(rules, registered, hmac, i, ValuesOf(before)[i], ValuesOf(after)[i]);
    if before[i].target.ColumnName? {
      DoneIsWritten(before[i].target.name, anonymized, registered, hmac, rules, i, before[i].value, after[i].value);
    } else {
      var names := before[i].target.names;
      forall k | 0 <= k < |names|
        ensures forall id :: !Declares(anonymized, names[k], id)
      {
        RuleMeans(names[k], anonymized);
        assert ColumnRule(names[k], anonymized) == Plain;
      }
    }
  }

  /** All columns bare, and every declared cell a literal under a usable secret. */
  ghost predicate Acceptable(columns: seq<ObjectName>, anonymized: map<string, string>,
                             registered: map<string, Secret>, rows: seq<seq<Expr>>) {
    && (forall j :: 0 <= j < |columns| ==> Bare(columns[j]))
    && (forall j, id :: 0 <= j < |columns| && Declares(anonymized, columns[j], id) ==>
          id in registered && registered[id].algo == "HMAC-SHA256")
    && (forall i, j, id :: 0 <= i < |rows| && 0 <= j < |rows[i]| && j < |columns| && Declares(anonymized, columns[j], id) ==>
          rows[i][j].Literal? && !rows[i][j].value.Placeholder?)
  }

  /** Each rule is what the declaration says of its column. */
  ghost predicate RulesOf(rules: seq<Rule>, columns: seq<ObjectName>, anonymized: map<string, string>) {
    && |rules| == |columns|
    && (forall j :: 0 <= j < |rules| ==> (rules[j] == Unsupported <==> !Bare(columns[j])))
    && (forall j, id :: 0 <= j < |rules| ==> (rules[j] == Under(id) <==> Declares(anonymized, columns[j], id)))
  }

  lemma AcceptedIsAcceptable(columns: seq<ObjectName>, anonymized: map<string, string>, rules: seq<Rule>,
                             registered: map<string, Secret>, rows: seq<seq<Expr>>)
    requires RulesOf(rules, columns, anonymized) && InsertAccepted(rules, registered, Values(rows))
    ensures Acceptable(columns, anonymized, registered, rows)
  {
    forall j | 0 <= j < |columns|
      ensures Bare(columns[j])
    {
      assert rules[j] in rules;
    }
    forall j, id | 0 <= j < |columns| && Declares(anonymized, columns[j], id)
      ensures id in registered && registered[id].algo == "HMAC-SHA256"
    {
      DeclaredCells(columns, anonymized, rules, registered, rows, j, id);
    }
    forall i, j, id | 0 <= i < |rows| && 0 <= j < |rows[i]| && j < |columns| && Declares(anonymized, columns[j], id)
      ensures rows[i][j].Literal? && !rows[i][j].value.Placeholder?
    {
      DeclaredCells(columns, anonymized, rules, registered, rows, j, id);
    }
  }

  lemma DeclaredCells(columns: seq<ObjectName>, anonymized: map<string, string>, rules: seq<Rule>,
                      registered: map<string, Secret>, rows: seq<seq<Expr>>, j: nat, id: string)
    requires RulesOf(rules, columns, anonymized) && InsertAccepted(rules, registered, Values(rows))
    requires j < |columns| && Declares(anonymized, columns[j], id)
    ensures Usable(registered, id)
    ensures forall i :: 0 <= i < |rows| && j < |rows[i]| ==> Hashable(rows[i][j])
  {
    assert rules[j] == Under(id);
    assert AnyUnder(rules);
    forall i | 0 <= i < |rows| && j < |rows[i]|
      ensures Hashable(rows[i][j])
    {
      assert RowHashable(rules, rows[i]);
    }
  }

  lemma AcceptableIsAccepted(columns: seq<ObjectName>, anonymized: map<string, string>, rules: seq<Rule>,
                             registered: map<string, Secret>, rows: seq<seq<Expr>>)
    requires RulesOf(rules, columns, anonymized) && Acceptable(columns, anonymized, registered, rows)
    ensures InsertAccepted(rules, registered, Values(rows))
  {
    forall j | 0 <= j < |rules|
      ensures rules[j] != Unsupported
      ensures rules[j].Under? ==> Usable(registered, rules[j].secret)
      ensures rules[j].Under? ==> forall i :: 0 <= i < |rows| && j < |rows[i]| ==> Hashable(rows[i][j])
    {
      assert Bare(columns[j]);
      if rules[j].Under? {
        assert Declares(anonymized, columns[j], rules[j].secret);
      }
    }
    forall i | 0 <= i < |rows|
      ensures RowHashable(rules, rows[i])
    {
    }
  }

  /** What is accepted, said of the columns and their cells. */
  lemma InsertAcceptedForCaller(columns: seq<ObjectName>, anonymized: map<string, string>,
                                registered: map<string, Secret>, rows: seq<seq<Expr>>)
    ensures InsertAccepted(Rules(columns, anonymized), registered, Values(rows))
            <==> Acceptable(columns, anonymized, registered, rows)
  {
    var rules := Rules(columns, anonymized);
    forall j | 0 <= j < |columns|
      ensures rules[j] == Unsupported <==> !Bare(columns[j])
      ensures forall id :: rules[j] == Under(id) <==> Declares(anonymized, columns[j], id)
    {
      RuleMeans(columns[j], anonymized);
    }
    assert RulesOf(rules, columns, anonymized);
    if InsertAccepted(rules, registered, Values(rows)) {
      AcceptedIsAcceptable(columns, anonymized, rules, registered, rows);
    }
    if Acceptable(columns, anonymized, registered, rows) {
      AcceptableIsAccepted(columns, anonymized, rules, registered, rows);
    }
  }

  // ----- statements

  /** A statement on a table with anonymized columns; any other kind of statement passes untouched. */
  method AnonymizeStatement(statement: Statement, anonymized: map<string, string>, resolver: Resolver, hmac: Hmac)
    returns (ok: bool)
    modifies if statement.InsertInto? then {statement.insert} else {},
             if statement.UpdateSet? then {statement.update} else {},
             resolver
    ensures statement.InsertInto? && anonymized != map[] ==>
              && (ok <==> InsertAccepted(Rules(statement.insert.columns, anonymized), resolver.registered,
                                         old(statement.insert.source)))
              && (ok ==> InsertDone(Rules(statement.insert.columns, anonymized), resolver.registered, hmac,
                                    old(statement.insert.source), statement.insert.source))
              && statement.insert.on == old(statement.insert.on)
    ensures statement.UpdateSet? && anonymized != map[] ==>
              && (ok <==> UpdateAccepted(TargetRules(old(statement.update.assignments), anonymized),
                                         resolver.registered, old(statement.update.assignments)))
              && (ok ==> UpdateDone(TargetRules(old(statement.update.assignments), anonymized), resolver.registered,
                                    hmac, old(statement.update.assignments), statement.update.assignments))
    ensures statement.OtherStatement? || anonymized == map[] ==> ok
    ensures anonymized == map[] ==>
              && (statement.InsertInto? ==>
                    statement.insert.source == old(statement.insert.source) && statement.insert.on == old(statement.insert.on))
              && (statement.UpdateSet? ==> statement.update.assignments == old(statement.update.assignments))
    ensures old(resolver.asked) <= resolver.asked && Distinct(resolver.asked[|old(resolver.asked)|..])
  {
    if anonymized == map[] {
      return true;
    }
    match statement {
      case InsertInto(insert) => ok := AnonymizeInsert(insert, anonymized, resolver, hmac);
      case UpdateSet(update) => ok := AnonymizeAssignments(update, anonymized, resolver, hmac);
      case OtherStatement => ok := true;
    }
  }
}

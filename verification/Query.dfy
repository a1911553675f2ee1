/** The translation of database queries to filter documents. */
module Query {
  type Variant = int  // a value that a field is compared with

  datatype RepoQuery =
    | Eq(field: string, values: seq<Variant>)
    | Exists(field: string, present: bool)
    | ArrayContains(field: string, inner: RepoQuery)
    | Or(conditions: seq<RepoQuery>)
    | Builder(conditions: seq<RepoQuery>)

  /** A filter document is a list of fields, in the order in which they were appended. */
  datatype Filter = Filter(fields: seq<Field>)

  datatype Field =
    | Equal(name: string, value: Variant)
    | In(name: string, values: seq<Variant>)
    | Present(name: string, present: bool)
    | ElemMatch(name: string, filter: Filter)
    | AnyOf(alternatives: seq<Filter>)

  /** What can be observed of a stored document: whether a field has a value, whether it is present, and
      the elements of an array field. */
  datatype Store<!D(!new)> = Store(
    has: (D, string, Variant) -> bool,
    present: (D, string) -> bool,
    elements: (D, string) -> seq<D>)

  // ----- what a query asks for

  ghost predicate Asks<D(!new)>(s: Store<D>, q: RepoQuery, d: D)
    decreases q
  {
    match q
    case Eq(field, values) => exists i :: 0 <= i < |values| && s.has(d, field, values[i])
    case Exists(field, present) => s.present(d, field) == present
    case ArrayContains(field, inner) => exists e :: e in s.elements(d, field) && Asks(s, inner, e)
    case Or(conditions) => exists i :: 0 <= i < |conditions| && Asks(s, conditions[i], d)
    case Builder(conditions) => forall i :: 0 <= i < |conditions| ==> Asks(s, conditions[i], d)
  }

  // ----- what a filter document selects

  /** How the names of a document are read when one is repeated. Every field counts, as the database reads a
      filter; or only the last one, as in a document that keeps one value per name. */
  datatype Reading = EveryField | LastField

  function Label(f: Field): (name: string) {
    if f.AnyOf? then "$or" else f.name
  }

  /** The i-th field counts. */
  ghost predicate Counts(r: Reading, fields: seq<Field>, i: nat)
    requires i < |fields|
  {
    r == EveryField || forall j :: i < j < |fields| ==> Label(fields[j]) != Label(fields[i])
  }

  ghost predicate Holds<D(!new)>(s: Store<D>, r: Reading, f: Field, d: D)
    decreases f
  {
    match f
    case Equal(name, value) => s.has(d, name, value)
    case In(name, values) => exists i :: 0 <= i < |values| && s.has(d, name, values[i])
    case Present(name, present) => s.present(d, name) == present
    case ElemMatch(name, filter) => exists e :: e in s.elements(d, name) && Selects(s, r, filter, e)
    case AnyOf(alternatives) => exists i :: 0 <= i < |alternatives| && Selects(s, r, alternatives[i], d)
  }

  /** All fields that count hold. */
  ghost predicate Selects<D(!new)>(s: Store<D>, r: Reading, filter: Filter, d: D)
    decreases filter
  {
    forall i :: 0 <= i < |filter.fields| && Counts(r, filter.fields, i) ==> Holds(s, r, filter.fields[i], d)
  }

  // ----- the translation

  /** The filter document for a query. */
  function MakeFilter(q: RepoQuery): (filter: Filter)
    decreases q, 1
  {
    Filter(Visit(q))
  }

  /** The fields that a query adds to the document that is being built. */
  function Visit(q: RepoQuery): (fields: seq<Field>)
    decreases q, 0
  {
    match q
    case Eq(field, values) =>
      if |values| > 1 then [In(field, values)] else if |values| == 1 then [Equal(field, values[0])] else []
    case Exists(field, present) => [Present(field, present)]
    case ArrayContains(field, inner) => [ElemMatch(field, MakeFilter(inner))]
    case Or(conditions) => [AnyOf(Alternatives(conditions))]
    case Builder(conditions) => Siblings(conditions)
  }

  function Alternatives(conditions: seq<RepoQuery>): (r: seq<Filter>)
    ensures |r| == |conditions|
    ensures forall i :: 0 <= i < |r| ==> r[i] == MakeFilter(conditions[i])
    decreases conditions, 0
  {
    if conditions == [] then [] else [MakeFilter(conditions[0])] + Alternatives(conditions[1..])
  }

  function Siblings(conditions: seq<RepoQuery>): (r: seq<Field>)
    decreases conditions, 0
  {
    if conditions == [] then [] else Visit(conditions[0]) + Siblings(conditions[1..])
  }

  // ----- the meaning is preserved

  /** No list of admissible values is empty. */
  predicate NonEmpty(q: RepoQuery)
    decreases q
  {
    match q
    case Eq(_, values) => values != []
    case Exists(_, _) => true
    case ArrayContains(_, inner) => NonEmpty(inner)
    case Or(conditions) => forall i :: 0 <= i < |conditions| ==> NonEmpty(conditions[i])
    case Builder(conditions) => forall i :: 0 <= i < |conditions| ==> NonEmpty(conditions[i])
  }

  ghost predicate AllHold<D(!new)>(s: Store<D>, fields: seq<Field>, d: D) {
    forall i :: 0 <= i < |fields| ==> Holds(s, EveryField, fields[i], d)
  }

  lemma AllHoldConcat<D(!new)>(s: Store<D>, a: seq<Field>, b: seq<Field>, d: D)
    ensures AllHold(s, a + b, d) <==> AllHold(s, a, d) && AllHold(s, b, d)
  {
    if AllHold(s, a + b, d) {
      forall i | 0 <= i < |a| ensures Holds(s, EveryField, a[i], d) {
        assert (a + b)[i] == a[i];
      }
      forall i | 0 <= i < |b| ensures Holds(s, EveryField, b[i], d) {
        assert (a + b)[|a| + i] == b[i];
      }
    }
  }

  /** A filter never misses a document that its query asks for. */
  lemma {:induction false} FilterIsComplete<D(!new)>(s: Store<D>, q: RepoQuery, d: D)
    requires Asks(s, q, d)
    ensures AllHold(s, Visit(q), d)
    decreases q, 0
  {
    match q
    case Eq(_, _) =>
    case Exists(_, _) =>
    case ArrayContains(field, inner) =>
      var e :| e in s.elements(d, field) && Asks(s, inner, e);
      FilterIsComplete(s, inner, e);
      assert Selects(s, EveryField, MakeFilter(inner), e);
    case Or(conditions) =>
      var i :| 0 <= i < |conditions| && Asks(s, conditions[i], d);
      FilterIsComplete(s, conditions[i], d);
      assert Selects(s, EveryField, Alternatives(conditions)[i], d);
    case Builder(conditions) =>
      SiblingsAreComplete(s, conditions, d);
  }

  lemma {:induction false} SiblingsAreComplete<D(!new)>(s: Store<D>, conditions: seq<RepoQuery>, d: D)
    requires forall i :: 0 <= i < |conditions| ==> Asks(s, conditions[i], d)
    ensures AllHold(s, Siblings(conditions), d)
    decreases conditions, 0
  {
    if conditions != [] {
      FilterIsComplete(s, conditions[0], d);
      SiblingsAreComplete(s, conditions[1..], d);
      AllHoldConcat(s, Visit(conditions[0]), Siblings(conditions[1..]), d);
    }
  }

  /** Without empty lists it selects nothing else. */
  lemma {:induction false} FilterIsSound<D(!new)>(s: Store<D>, q: RepoQuery, d: D)
    requires NonEmpty(q) && AllHold(s, Visit(q), d)
    ensures Asks(s, q, d)
    decreases q, 0
  {
    match q
    case Eq(_, values) =>
      assert Holds(s, EveryField, Visit(q)[0], d);
    case Exists(_, _) =>
      assert Holds(s, EveryField, Visit(q)[0], d);
    case ArrayContains(field, inner) =>
      assert Holds(s, EveryField, Visit(q)[0], d);
      var e :| e in s.elements(d, field) && Selects(s, EveryField, MakeFilter(inner), e);
      FilterIsSound(s, inner, e);
    case Or(conditions) =>
      assert Holds(s, EveryField, Visit(q)[0], d);
      var i :| 0 <= i < |conditions| && Selects(s, EveryField, Alternatives(conditions)[i], d);
      FilterIsSound(s, conditions[i], d);
    case Builder(conditions) =>
      SiblingsAreSound(s, conditions, d);
  }

  lemma {:induction false} SiblingsAreSound<D(!new)>(s: Store<D>, conditions: seq<RepoQuery>, d: D)
    requires forall i :: 0 <= i < |conditions| ==> NonEmpty(conditions[i])
    requires AllHold(s, Siblings(conditions), d)
    ensures forall i :: 0 <= i < |conditions| ==> Asks(s, conditions[i], d)
    decreases conditions, 0
  {
    if conditions != [] {
      AllHoldConcat(s, Visit(conditions[0]), Siblings(conditions[1..]), d);
      FilterIsSound(s, conditions[0], d);
      SiblingsAreSound(s, conditions[1..], d);
    }
  }

  // ----- names that occur once

  /** The names that a query adds to a document. */
  function Names(q: RepoQuery): (r: seq<string>)
    decreases q
  {
    match q
    case Or(_) => ["$or"]
    case Builder(conditions) => NamesOf(conditions)
    case Eq(field, _) => [field]
    case Exists(field, _) => [field]
    case ArrayContains(field, _) => [field]
  }

  function NamesOf(conditions: seq<RepoQuery>): (r: seq<string>)
    decreases conditions
  {
    if conditions == [] then [] else Names(conditions[0]) + NamesOf(conditions[1..])
  }

  predicate NoRepeats(names: seq<string>) {
    forall i, j :: 0 <= i < j < |names| ==> names[i] != names[j]
  }

  /** Within each document, fields are distinct and there is at most one list of alternatives. */
  predicate Distinct(q: RepoQuery)
    decreases q
  {
    NoRepeats(Names(q)) && DistinctInside(q)
  }

  predicate DistinctInside(q: RepoQuery)
    decreases q, 0
  {
    match q
    case ArrayContains(_, inner) => NoRepeats(Names(inner)) && DistinctInside(inner)
    case Or(conditions) =>
      forall i :: 0 <= i < |conditions| ==> NoRepeats(Names(conditions[i])) && DistinctInside(conditions[i])
    case Builder(conditions) => forall i :: 0 <= i < |conditions| ==> DistinctInside(conditions[i])
    case _ => true
  }

  function Labels(fields: seq<Field>): (r: seq<string>) {
    seq(|fields|, i requires 0 <= i < |fields| => Label(fields[i]))
  }

  lemma {:induction false} LabelsAreNames(q: RepoQuery)
    requires NonEmpty(q)
    ensures Labels(Visit(q)) == Names(q)
    decreases q
  {
    if q.Builder? {
      SiblingLabels(q.conditions);
    }
  }

  lemma {:induction false} SiblingLabels(conditions: seq<RepoQuery>)
    requires forall i :: 0 <= i < |conditions| ==> NonEmpty(conditions[i])
    ensures Labels(Siblings(conditions)) == NamesOf(conditions)
    decreases conditions
  {
    if conditions != [] {
      LabelsAreNames(conditions[0]);
      SiblingLabels(conditions[1..]);
      assert Labels(Visit(conditions[0]) + Siblings(conditions[1..]))
          == Labels(Visit(conditions[0])) + Labels(Siblings(conditions[1..]));
    }
  }

  /** Each field holds in one reading exactly when it holds in the other. */
  ghost predicate SameReading<D(!new)>(s: Store<D>, r: Reading, fields: seq<Field>) {
    forall i, d :: 0 <= i < |fields| ==> (Holds(s, r, fields[i], d) <==> Holds(s, EveryField, fields[i], d))
  }

  lemma {:induction false} EveryFieldCounts<D(!new)>(s: Store<D>, r: Reading, q: RepoQuery, d: D)
    requires NonEmpty(q) && NoRepeats(Names(q)) && SameReading(s, r, Visit(q))
    ensures Selects(s, r, MakeFilter(q), d) <==> AllHold(s, Visit(q), d)
  {
    LabelsAreNames(q);
    var fields := Visit(q);
    forall i | 0 <= i < |fields| ensures Counts(r, fields, i) {
      forall j | i < j < |fields| ensures Label(fields[j]) != Label(fields[i]) {
        assert Labels(fields)[i] == Label(fields[i]) && Labels(fields)[j] == Label(fields[j]);
      }
    }
  }

  lemma {:induction false} ReadingsAgree<D(!new)>(s: Store<D>, r: Reading, q: RepoQuery)
    requires NonEmpty(q) && DistinctInside(q)
    ensures SameReading(s, r, Visit(q))
    decreases q, 0
  {
    match q
    case ArrayContains(field, inner) =>
      ReadingsAgree(s, r, inner);
      forall d ensures Holds(s, r, Visit(q)[0], d) <==> Holds(s, EveryField, Visit(q)[0], d) {
        forall e ensures Selects(s, r, MakeFilter(inner), e) <==> Selects(s, EveryField, MakeFilter(inner), e) {
          EveryFieldCounts(s, r, inner, e);
        }
      }
    case Or(conditions) =>
      forall i, d | 0 <= i < |conditions|
        ensures Selects(s, r, MakeFilter(conditions[i]), d) <==> Selects(s, EveryField, MakeFilter(conditions[i]), d)
      {
        ReadingsAgree(s, r, conditions[i]);
        EveryFieldCounts(s, r, conditions[i], d);
      }
    case Builder(conditions) => SiblingReadingsAgree(s, r, conditions);
    case _ =>
  }

  lemma {:induction false} SiblingReadingsAgree<D(!new)>(s: Store<D>, r: Reading, conditions: seq<RepoQuery>)
    requires forall i :: 0 <= i < |conditions| ==> NonEmpty(conditions[i]) && DistinctInside(conditions[i])
    ensures SameReading(s, r, Siblings(conditions))
    decreases conditions, 0
  {
    if conditions != [] {
      ReadingsAgree(s, r, conditions[0]);
      SiblingReadingsAgree(s, r, conditions[1..]);
    }
  }

  /** Where only the last field of a name counts, a filter selects the same documents or more, and never
      fewer. */
  lemma {:induction false} LastFieldSelectsMore<D(!new)>(s: Store<D>, filter: Filter, d: D)
    requires Selects(s, EveryField, filter, d)
    ensures Selects(s, LastField, filter, d)
    decreases filter
  {
    forall i | 0 <= i < |filter.fields| ensures Holds(s, LastField, filter.fields[i], d) {
      assert Counts(EveryField, filter.fields, i);
      LastFieldHolds(s, filter.fields[i], d);
    }
  }

  lemma {:induction false} LastFieldHolds<D(!new)>(s: Store<D>, f: Field, d: D)
    requires Holds(s, EveryField, f, d)
    ensures Holds(s, LastField, f, d)
    decreases f
  {
    match f
    case ElemMatch(name, filter) =>
      var e :| e in s.elements(d, name) && Selects(s, EveryField, filter, e);
      LastFieldSelectsMore(s, filter, e);
    case AnyOf(alternatives) =>
      var i :| 0 <= i < |alternatives| && Selects(s, EveryField, alternatives[i], d);
      LastFieldSelectsMore(s, alternatives[i], d);
    case _ =>
  }

  /** It selects more exactly where all fields that count hold and some field that is followed by one of its
      name does not, as far as the nested documents read the same. */
  lemma {:induction false} RepeatedNameLoses<D(!new)>(s: Store<D>, filter: Filter, d: D)
    requires SameReading(s, LastField, filter.fields)
    ensures Selects(s, LastField, filter, d) && !Selects(s, EveryField, filter, d)
            <==> && (forall i :: 0 <= i < |filter.fields| && Counts(LastField, filter.fields, i) ==>
                       Holds(s, EveryField, filter.fields[i], d))
                 && exists i :: 0 <= i < |filter.fields| && Shadowed(filter.fields, i)
                                && !Holds(s, EveryField, filter.fields[i], d)
  {
    var fields := filter.fields;
    forall i | 0 <= i < |fields| ensures Counts(LastField, fields, i) <==> !Shadowed(fields, i) {
    }
    forall i | 0 <= i < |fields| ensures Counts(EveryField, fields, i) {
    }
  }

  /** A later field has the same name. */
  ghost predicate Shadowed(fields: seq<Field>, i: nat)
    requires i < |fields|
  {
    exists j :: i < j < |fields| && Label(fields[j]) == Label(fields[i])
  }

  // ----- the main results

  /** The filter document selects exactly what the query asks for: always when every field counts, and
      when names are distinct also if a repeated name would count only once. */
  lemma {:induction false} FilterIsExact<D(!new)>(s: Store<D>, r: Reading, q: RepoQuery, d: D)
    requires NonEmpty(q) && (r == EveryField || Distinct(q))
    ensures Selects(s, r, MakeFilter(q), d) <==> Asks(s, q, d)
  {
    if r != EveryField {
      ReadingsAgree(s, r, q);
      EveryFieldCounts(s, r, q, d);
    }
    if Asks(s, q, d) {
      FilterIsComplete(s, q, d);
    }
    if AllHold(s, Visit(q), d) {
      FilterIsSound(s, q, d);
    }
  }

  /** The query that ignores equalities with no admissible value. */
  function Relax(q: RepoQuery): (r: RepoQuery)
    decreases q
  {
    match q
    case Eq(_, values) => if values == [] then Builder([]) else q
    case Exists(_, _) => q
    case ArrayContains(field, inner) => ArrayContains(field, Relax(inner))
    case Or(conditions) => Or(RelaxAll(conditions))
    case Builder(conditions) => Builder(RelaxAll(conditions))
  }

  function RelaxAll(conditions: seq<RepoQuery>): (r: seq<RepoQuery>)
    ensures |r| == |conditions| && forall i :: 0 <= i < |r| ==> r[i] == Relax(conditions[i])
    decreases conditions
  {
    if conditions == [] then [] else [Relax(conditions[0])] + RelaxAll(conditions[1..])
  }

  lemma {:induction false} RelaxKeepsFilter(q: RepoQuery)
    ensures Visit(Relax(q)) == Visit(q) && NonEmpty(Relax(q))
    decreases q
  {
    match q
    case Eq(_, _) =>
    case Exists(_, _) =>
    case ArrayContains(_, inner) =>
      RelaxKeepsFilter(inner);
    case Or(conditions) =>
      forall i | 0 <= i < |conditions|
        ensures Visit(Relax(conditions[i])) == Visit(conditions[i]) && NonEmpty(Relax(conditions[i]))
      {
        RelaxKeepsFilter(conditions[i]);
      }
      assert Alternatives(RelaxAll(conditions)) == Alternatives(conditions);
    case Builder(conditions) =>
      RelaxKeepsSiblings(conditions);
  }

  lemma {:induction false} RelaxKeepsSiblings(conditions: seq<RepoQuery>)
    ensures Siblings(RelaxAll(conditions)) == Siblings(conditions)
    ensures forall i :: 0 <= i < |conditions| ==> NonEmpty(Relax(conditions[i]))
    decreases conditions
  {
    if conditions != [] {
      RelaxKeepsFilter(conditions[0]);
      RelaxKeepsSiblings(conditions[1..]);
      assert RelaxAll(conditions)[1..] == RelaxAll(conditions[1..]);
    }
  }

  /** For every query, with empty lists or not: the filter selects what is asked for when equalities with
      no admissible value are ignored. */
  lemma {:induction false} FilterIgnoresEmptyLists<D(!new)>(s: Store<D>, q: RepoQuery, d: D)
    ensures Selects(s, EveryField, MakeFilter(q), d) <==> Asks(s, Relax(q), d)
    ensures Asks(s, q, d) ==> Asks(s, Relax(q), d)
  {
    RelaxKeepsFilter(q);
    FilterIsExact(s, EveryField, Relax(q), d);
    if Asks(s, q, d) {
      FilterIsComplete(s, q, d);
    }
  }

  /** An equality on its own is translated exactly when it admits some value: an empty list is dropped,
      so that the filter selects every document. */
  lemma {:induction false} EqIsExactUnlessEmpty(q: RepoQuery)
    requires q.Eq?
    ensures q.values != [] <==> forall s: Store<int>, d :: Selects(s, EveryField, MakeFilter(q), d) <==> Asks(s, q, d)
  {
    if q.values != [] {
      forall s: Store<int>, d ensures Selects(s, EveryField, MakeFilter(q), d) <==> Asks(s, q, d) {
        FilterIsExact(s, EveryField, q, d);
      }
    } else {
      var s: Store<int> := Store((d, f, v) => true, (d, f) => true, (d, f) => []);
      assert |q.values| == 0 && Visit(q) == [];
      assert !Asks(s, q, 0);
      assert Selects(s, EveryField, MakeFilter(q), 0);
    }
  }

  /** A name that is repeated can lose a condition when only its last field counts. */
  lemma {:induction false} RepeatedNameExample(s: Store<int>, d: int)
    requires s.has(d, "a", 2) && !s.has(d, "a", 1)
    ensures var q := Builder([Eq("a", [1]), Eq("a", [2])]);
            NonEmpty(q) && Selects(s, LastField, MakeFilter(q), d) && !Asks(s, q, d)
  {
    var first, second := Eq("a", [1]), Eq("a", [2]);
    var q := Builder([first, second]);
    TwoSiblings(first, second);
    assert Label(Visit(q)[1]) == Label(Visit(q)[0]);
    assert !Asks(s, q.conditions[0], d);
  }

  lemma {:induction false} TwoSiblings(a: RepoQuery, b: RepoQuery)
    ensures Siblings([a, b]) == Visit(a) + Visit(b)
  {
    assert [a, b][1..] == [b] && [b][1..] == [];
    assert Siblings([b]) == Visit(b) + Siblings([]);
  }
}

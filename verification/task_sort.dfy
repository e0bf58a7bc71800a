/** The comparator behind `search`: the `sortBy` syntax (`field`,
    `field:asc`, `field:desc`), the field selection, the tie-break on id, and
    the ordering it induces on task views. */
module TaskSort {
  import opened Wrappers
  import opened Text
  import opened Dates
  import opened Entities
  import opened Seqs

  /** The part of `sortBy` before its first ':', all of it when there is none. */
  function SortField(sortBy: string): string
  {
    match IndexOf(sortBy, ':')
    case None => sortBy
    case Some(i) => sortBy[..i]
  }

  /** Only the exact text `desc` after the first ':' asks for descending order. */
  predicate IsDescending(sortBy: string)
  {
    match IndexOf(sortBy, ':')
    case None => false
    case Some(i) => sortBy[i + 1..] == "desc"
  }

  /** The fields a task view can be sorted on. */
  datatype Field = UserField | IdField | DueField | TaskField

  /** `selectField`: the four field names, and an error for any other. */
  function SelectField(name: string): (r: Result<Field, string>)
    ensures r.Success? <==> name == "user" || name == "id" || name == "due" || name == "task"
    ensures r.Failure? ==> r.error == "Not a field: " + name
    ensures r == Success(UserField) <==> name == "user"
    ensures r == Success(IdField) <==> name == "id"
    ensures r == Success(DueField) <==> name == "due"
    ensures r == Success(TaskField) <==> name == "task"
  {
    if name == "user" then Success(UserField)
    else if name == "id" then Success(IdField)
    else if name == "due" then Success(DueField)
    else if name == "task" then Success(TaskField)
    else Failure("Not a field: " + name)
  }

  /** `f1.equals(f2)` on the selected field. */
  predicate SameValue(f: Field, a: TaskView, b: TaskView)
  {
    match f
    case UserField => a.user == b.user
    case IdField => a.id == b.id
    case DueField => a.due == b.due
    case TaskField => a.task == b.task
  }

  /** `f1.compareTo(f2)` on the selected field. */
  function CompareOn(f: Field, a: TaskView, b: TaskView): Order
  {
    match f
    case UserField => CompareStrings(a.user, b.user)
    case IdField => CompareInts(a.id, b.id)
    case DueField => CompareStrings(a.due, b.due)
    case TaskField => CompareStrings(a.task, b.task)
  }

  /** `sort(sortBy, o1, o2)` as written: a missing `sortBy` compares ids; an
      unknown field is an error; equal field values fall back to ascending id
      whatever the direction. */
  function Compare(sortBy: Option<string>, o1: TaskView, o2: TaskView): (r: Result<Order, string>)
    ensures r.Failure? <==> sortBy.Some? && SelectField(SortField(sortBy.value)).Failure?
    ensures r.Failure? ==> r.error == "Not a field: " + SortField(sortBy.value)
    ensures sortBy.None? ==> r == Success(CompareInts(o1.id, o2.id))
    ensures r.Success? ==> (r.value == Equal ==> o1.id == o2.id)
  {
    match sortBy
    case None => Success(CompareInts(o1.id, o2.id))
    case Some(s) =>
      var descending := IsDescending(s);
      match SelectField(SortField(s))
      case Failure(e) => Failure(e)
      case Success(f) =>
        CompareOnFlip(f, o1, o2);
        if SameValue(f, o1, o2) then Success(CompareInts(o1.id, o2.id))
        else if descending then Success(CompareOn(f, o2, o1))
        else Success(CompareOn(f, o1, o2))
  }

  // ---------------------------------------------------------------------------
  // The sort specification, parsed once

  datatype SortSpec = SortSpec(field: Field, descending: bool)

  /** The field and direction `sortBy` asks for; a missing `sortBy` means `id`
      ascending. */
  function ParseSortSpec(sortBy: Option<string>): (r: Result<SortSpec, string>)
    ensures sortBy.None? ==> r == Success(SortSpec(IdField, false))
    ensures sortBy.Some? ==> (r.Success? <==> SelectField(SortField(sortBy.value)).Success?)
    ensures sortBy.Some? && r.Success? ==>
              r.value.descending == IsDescending(sortBy.value)
              && Success(r.value.field) == SelectField(SortField(sortBy.value))
    ensures sortBy.Some? && r.Failure? ==> r.error == "Not a field: " + SortField(sortBy.value)
  {
    match sortBy
    case None => Success(SortSpec(IdField, false))
    case Some(s) =>
      match SelectField(SortField(s))
      case Failure(e) => Failure(e)
      case Success(f) => Success(SortSpec(f, IsDescending(s)))
  }

  /** The order a parsed specification imposes. */
  function Cmp(spec: SortSpec, a: TaskView, b: TaskView): Order
  {
    if SameValue(spec.field, a, b) then CompareInts(a.id, b.id)
    else if spec.descending then CompareOn(spec.field, b, a)
    else CompareOn(spec.field, a, b)
  }

  /** The comparator fails exactly when the specification does not parse, and
      otherwise agrees with the parsed order; in particular a missing `sortBy`
      orders like `id:asc`. */
  lemma CompareIsCmp(sortBy: Option<string>, a: TaskView, b: TaskView)
    ensures Compare(sortBy, a, b).Success? <==> ParseSortSpec(sortBy).Success?
    ensures ParseSortSpec(sortBy).Success? ==>
              Compare(sortBy, a, b).value == Cmp(ParseSortSpec(sortBy).value, a, b)
    ensures ParseSortSpec(sortBy).Failure? ==>
              Compare(sortBy, a, b).error == ParseSortSpec(sortBy).error
  {
  }

  /** Where the first ':' is decides both halves of `sortBy`: without one the
      whole text names the field, ascending; with one the field is the text
      before it, and only an exact `desc` after it means descending. */
  lemma SortBySyntax(s: string)
    ensures (forall i :: 0 <= i < |s| ==> s[i] != ':') ==> SortField(s) == s && !IsDescending(s)
    ensures forall i :: 0 <= i < |s| && s[i] == ':' && (forall j :: 0 <= j < i ==> s[j] != ':') ==>
              SortField(s) == s[..i] && (IsDescending(s) <==> s[i + 1..] == "desc")
  {
    match IndexOf(s, ':')
    case None =>
    case Some(k) =>
      forall i | 0 <= i < |s| && s[i] == ':' && (forall j :: 0 <= j < i ==> s[j] != ':') ensures k == i {
        // neither colon comes before the other
        assert !(k < i) by { assert s[k] == ':'; }
        assert !(i < k) by { assert s[i] == ':'; }
      }
  }

  /** `due:desc` sorts on `due`, descending. */
  lemma DueDescExample()
    ensures SortField("due:desc") == "due" && IsDescending("due:desc")
  {
    assert IndexOf("due:desc", ':') == Some(3);
    assert "due:desc"[4..] == "desc";
  }

  /** `due:DESC` and `due:desc:x` sort on `due`, ascending. */
  lemma NotExactlyDescExample()
    ensures SortField("due:DESC") == "due" && !IsDescending("due:DESC")
    ensures SortField("due:desc:x") == "due" && !IsDescending("due:desc:x")
  {
    assert IndexOf("due:DESC", ':') == Some(3);
    assert "due:DESC"[4..] == "DESC";
    assert IndexOf("due:desc:x", ':') == Some(3);
    assert "due:desc:x"[4..] == "desc:x";
  }

  /** `name` is not a field. */
  lemma UnknownFieldExample()
    ensures ParseSortSpec(Some("name")) == Failure("Not a field: name")
  {
    assert IndexOf("name", ':') == None;
    assert SortField("name") == "name";
    assert "name" != "user" && "name" != "id" && "name" != "due" && "name" != "task";
    assert "Not a field: " + "name" == "Not a field: name";
  }

  // ---------------------------------------------------------------------------
  // `Cmp` is a total order

  lemma CompareOnFlip(f: Field, a: TaskView, b: TaskView)
    ensures CompareOn(f, b, a) == Flip(CompareOn(f, a, b))
    ensures CompareOn(f, a, b) == Equal <==> SameValue(f, a, b)
  {
    match f
    case UserField => CompareStringsFlip(a.user, b.user); CompareStringsEqual(a.user, b.user);
    case IdField =>
    case DueField => CompareStringsFlip(a.due, b.due); CompareStringsEqual(a.due, b.due);
    case TaskField => CompareStringsFlip(a.task, b.task); CompareStringsEqual(a.task, b.task);
  }

  lemma CompareOnTransitive(f: Field, a: TaskView, b: TaskView, c: TaskView)
    requires CompareOn(f, a, b) == Less && CompareOn(f, b, c) == Less
    ensures CompareOn(f, a, c) == Less
  {
    match f
    case UserField => CompareStringsTransitive(a.user, b.user, c.user);
    case IdField =>
    case DueField => CompareStringsTransitive(a.due, b.due, c.due);
    case TaskField => CompareStringsTransitive(a.task, b.task, c.task);
  }

  /** Swapping the views flips the result, and only views that agree on the
      field and the id compare equal. */
  lemma CmpFlip(spec: SortSpec, a: TaskView, b: TaskView)
    ensures Cmp(spec, b, a) == Flip(Cmp(spec, a, b))
    ensures Cmp(spec, a, b) == Equal <==> a.id == b.id && SameValue(spec.field, a, b)
  {
    CompareOnFlip(spec.field, a, b);
  }

  lemma CmpTransitive(spec: SortSpec, a: TaskView, b: TaskView, c: TaskView)
    requires Cmp(spec, a, b) == Less && Cmp(spec, b, c) == Less
    ensures Cmp(spec, a, c) == Less
  {
    var f := spec.field;
    CompareOnFlip(f, a, b);
    CompareOnFlip(f, b, c);
    CompareOnFlip(f, a, c);
    if !SameValue(f, a, b) && !SameValue(f, b, c) {
      if spec.descending {
        CompareOnTransitive(f, c, b, a);
      } else {
        CompareOnTransitive(f, a, b, c);
      }
    }
  }

  /** "Not after" is transitive too. */
  lemma CmpTransitiveLe(spec: SortSpec, a: TaskView, b: TaskView, c: TaskView)
    requires Cmp(spec, a, b) != Greater && Cmp(spec, b, c) != Greater
    ensures Cmp(spec, a, c) != Greater
  {
    CmpFlip(spec, a, b);
    CmpFlip(spec, b, c);
    CmpFlip(spec, a, c);
    if Cmp(spec, a, b) == Less && Cmp(spec, b, c) == Less {
      CmpTransitive(spec, a, b, c);
    }
  }

  /** Equal values on the field fall back to ascending id, in both directions;
      different values are ordered by the field, reversed for `desc`. */
  lemma CmpDirection(f: Field, a: TaskView, b: TaskView)
    ensures SameValue(f, a, b) ==>
              Cmp(SortSpec(f, true), a, b) == Cmp(SortSpec(f, false), a, b) == CompareInts(a.id, b.id)
    ensures !SameValue(f, a, b) ==>
              Cmp(SortSpec(f, true), a, b) == Flip(Cmp(SortSpec(f, false), a, b)) != Equal
  {
    CompareOnFlip(f, a, b);
  }

  /** Sorting on `due` is chronological, ties broken by ascending id. */
  lemma DueOrderIsChronological(descending: bool, a: TaskView, b: TaskView)
    ensures var da, db := DayNumber(Parse(a.due)), DayNumber(Parse(b.due));
            Cmp(SortSpec(DueField, descending), a, b) ==
              if da == db then CompareInts(a.id, b.id)
              else if descending then CompareInts(db, da)
              else CompareInts(da, db)
  {
    TextOrderIsChronological(a.due, b.due);
    TextOrderIsChronological(b.due, a.due);
    if DayNumber(Parse(a.due)) == DayNumber(Parse(b.due)) {
      CompareStringsEqual(a.due, b.due);
    }
  }

  // ---------------------------------------------------------------------------
  // Sorting task views

  ghost predicate Sorted(spec: SortSpec, s: seq<TaskView>)
  {
    forall i, j :: 0 <= i < j < |s| ==> Cmp(spec, s[i], s[j]) != Greater
  }

  ghost predicate UniqueViewIds(s: seq<TaskView>)
  {
    forall i, j :: 0 <= i < j < |s| ==> s[i].id != s[j].id
  }

  /** A view no later than every view of a sorted sequence can go in front of it. */
  lemma ConsSorted(spec: SortSpec, h: TaskView, s: seq<TaskView>)
    requires Sorted(spec, s)
    requires forall j :: 0 <= j < |s| ==> Cmp(spec, h, s[j]) != Greater
    ensures Sorted(spec, [h] + s)
  {
    var r := [h] + s;
    forall i, j | 0 <= i < j < |r| ensures Cmp(spec, r[i], r[j]) != Greater {
      assert r[j] == s[j - 1];
      if i > 0 {
        assert r[i] == s[i - 1];
      }
    }
  }

  /** When `x` goes after the head of a sorted `s`, the head still comes no
      later than anything in the insertion of `x` into the tail. */
  lemma HeadBeforeInsertion(spec: SortSpec, x: TaskView, s: seq<TaskView>, rest: seq<TaskView>)
    requires Sorted(spec, s) && |s| > 0 && Cmp(spec, x, s[0]) == Greater
    requires multiset(rest) == multiset(s[1..]) + multiset{x}
    ensures forall j :: 0 <= j < |rest| ==> Cmp(spec, s[0], rest[j]) != Greater
  {
    forall j | 0 <= j < |rest| ensures Cmp(spec, s[0], rest[j]) != Greater {
      var y := rest[j];
      assert y in multiset(rest);
      if y == x {
        CmpFlip(spec, x, s[0]);
      } else {
        assert y in multiset(s[1..]);
        var k :| 0 <= k < |s[1..]| && s[1..][k] == y;
        assert s[k + 1] == y;
      }
    }
  }

  /** Inserts `x` before the first view it does not come after. */
  function Insert(spec: SortSpec, x: TaskView, s: seq<TaskView>): (r: seq<TaskView>)
    requires Sorted(spec, s)
    ensures multiset(r) == multiset(s) + multiset{x}
    ensures Sorted(spec, r)
  {
    if |s| == 0 then [x]
    else if Cmp(spec, x, s[0]) != Greater then
      assert forall j :: 0 <= j < |s| ==> Cmp(spec, x, s[j]) != Greater by {
        forall j | 0 < j < |s| ensures Cmp(spec, x, s[j]) != Greater {
          CmpTransitiveLe(spec, x, s[0], s[j]);
        }
      }
      ConsSorted(spec, x, s);
      [x] + s
    else
      assert s == [s[0]] + s[1..];
      var rest := Insert(spec, x, s[1..]);
      HeadBeforeInsertion(spec, x, s, rest);
      ConsSorted(spec, s[0], rest);
      [s[0]] + rest
  }

  /** The views ordered by the specification (an insertion sort). */
  function SortViews(spec: SortSpec, s: seq<TaskView>): (r: seq<TaskView>)
    ensures multiset(r) == multiset(s)
    ensures Sorted(spec, r)
  {
    if |s| == 0 then []
    else
      assert s == [s[0]] + s[1..];
      Insert(spec, s[0], SortViews(spec, s[1..]))
  }

  /** Whatever is drawn from an id-unique sequence of views (a filter of it,
      a permutation of it) is id-unique too. */
  lemma SubMultisetUniqueIds(s: seq<TaskView>, r: seq<TaskView>)
    requires UniqueViewIds(s) && multiset(r) <= multiset(s)
    ensures UniqueViewIds(r)
  {
    var key := (v: TaskView) => v.id;
    assert UniqueKeys(s, key);
    SubMultisetUniqueKeys(s, r, key);
    assert forall i, j :: 0 <= i < j < |r| ==> key(r[i]) != key(r[j]);
  }

  /** The head of a sorted sequence comes no later than any of its views. */
  lemma SortedHeadFirst(spec: SortSpec, a: seq<TaskView>, x: TaskView)
    requires Sorted(spec, a) && x in multiset(a)
    ensures Cmp(spec, a[0], x) != Greater
  {
    var i :| 0 <= i < |a| && a[i] == x;
    if i == 0 {
      CmpFlip(spec, x, x);
    }
  }

  /** Two sorted arrangements of the same id-unique views start with the same view. */
  lemma SortedSameHead(spec: SortSpec, a: seq<TaskView>, b: seq<TaskView>)
    requires Sorted(spec, a) && Sorted(spec, b)
    requires multiset(a) == multiset(b) && UniqueViewIds(a) && |a| > 0
    ensures |b| > 0 && a[0] == b[0]
  {
    assert a[0] in multiset(b);
    var x, y := a[0], b[0];
    SortedHeadFirst(spec, b, x);
    assert y in multiset(a);
    SortedHeadFirst(spec, a, y);
    CmpFlip(spec, x, y);
    var k :| 0 <= k < |a| && a[k] == y;
    if k != 0 {
      assert a[0].id != a[k].id;
    }
  }

  /** Dropping the common head of two equal multisets leaves equal multisets. */
  lemma TailsSameMultiset(a: seq<TaskView>, b: seq<TaskView>)
    requires |a| > 0 && |b| > 0 && a[0] == b[0] && multiset(a) == multiset(b)
    ensures multiset(a[1..]) == multiset(b[1..])
  {
    assert a == [a[0]] + a[1..];
    assert b == [b[0]] + b[1..];
    assert multiset(a[1..]) == multiset(a) - multiset{a[0]};
    assert multiset(b[1..]) == multiset(b) - multiset{b[0]};
  }

  /** The tail of a sorted, id-unique sequence is sorted and id-unique. */
  lemma SortedTail(spec: SortSpec, a: seq<TaskView>)
    requires Sorted(spec, a) && UniqueViewIds(a) && |a| > 0
    ensures Sorted(spec, a[1..]) && UniqueViewIds(a[1..])
  {
    forall i, j | 0 <= i < j < |a[1..]| ensures Cmp(spec, a[1..][i], a[1..][j]) != Greater && a[1..][i].id != a[1..][j].id {
      assert a[1..][i] == a[i + 1] && a[1..][j] == a[j + 1];
    }
  }

  /** Any two sorted arrangements of the same id-unique views are the same
      sequence: the order is fully determined, whatever algorithm sorts. */
  lemma {:induction false} SortedUnique(spec: SortSpec, a: seq<TaskView>, b: seq<TaskView>)
    requires Sorted(spec, a) && Sorted(spec, b)
    requires multiset(a) == multiset(b) && UniqueViewIds(a)
    ensures a == b
    decreases |a|
  {
    if |a| == 0 {
      assert |multiset(b)| == 0;
    } else {
      SortedSameHead(spec, a, b);
      TailsSameMultiset(a, b);
      SortedTail(spec, a);
      assert Sorted(spec, b[1..]) by {
        forall i, j | 0 <= i < j < |b[1..]| ensures Cmp(spec, b[1..][i], b[1..][j]) != Greater {
          assert b[1..][i] == b[i + 1] && b[1..][j] == b[j + 1];
        }
      }
      SortedUnique(spec, a[1..], b[1..]);
      assert a == [a[0]] + a[1..] && b == [b[0]] + b[1..];
    }
  }
}

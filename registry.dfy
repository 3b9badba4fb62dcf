/**
 * The habit registry of hooks/useHabits.ts on values: name validation,
 * the listing order, the trailing order of a new habit, the partial update
 * and the reorder.
 */
module Registry {
  import opened Wrappers
  import opened Schema

  // ---------------------------------------------------------------------
  // Name validation: JavaScript's String.prototype.trim

  /** The characters `trim` removes: ECMAScript WhiteSpace and LineTerminator. */
  predicate IsJsSpace(c: char) {
    || c == '\t' || c == '\n' || c == '\U{000B}' || c == '\U{000C}' || c == '\r' || c == ' '
    || c == '\U{00A0}' || c == '\U{1680}' || ('\U{2000}' <= c <= '\U{200A}')
    || c == '\U{2028}' || c == '\U{2029}' || c == '\U{202F}' || c == '\U{205F}'
    || c == '\U{3000}' || c == '\U{FEFF}'
  }

  /** s without its leading white space. */
  function TrimStart(s: string): (r: string)
    ensures |r| <= |s| && r == s[|s| - |r|..]
    ensures forall i :: 0 <= i < |s| - |r| ==> IsJsSpace(s[i])
    ensures r != [] ==> !IsJsSpace(r[0])
  {
    if s != [] && IsJsSpace(s[0]) then TrimStart(s[1..]) else s
  }

  /** s without its trailing white space. */
  function TrimEnd(s: string): (r: string)
    ensures |r| <= |s| && r == s[..|r|]
    ensures forall i :: |r| <= i < |s| ==> IsJsSpace(s[i])
    ensures r != [] ==> !IsJsSpace(r[|r| - 1])
  {
    if s != [] && IsJsSpace(s[|s| - 1]) then TrimEnd(s[..|s| - 1]) else s
  }

  /** `s.trim()`. */
  function Trim(s: string): string {
    TrimEnd(TrimStart(s))
  }

  /** `!name.trim()`: the name trims to the empty string. */
  predicate Blank(name: string) {
    Trim(name) == ""
  }

  /** A name is blank exactly when every character of it is white space. */
  lemma BlankIffAllSpace(name: string)
    ensures Blank(name) <==> forall i :: 0 <= i < |name| ==> IsJsSpace(name[i])
  {
    var t := TrimStart(name);
    assert t != [] ==> t[0] == name[|name| - |t|];
    assert Trim(name) == TrimEnd(t);
  }

  /** The create check `!name.trim()`. */
  predicate CreateRejects(name: string) {
    Blank(name)
  }

  /** The update check `name && !name.trim()`: the empty string is falsy and passes. */
  predicate UpdateRejects(name: Option<string>) {
    name.Some? && name.value != "" && Blank(name.value)
  }

  /** Create refuses a blank name; update refuses a non-empty blank name but lets `""` through. */
  lemma NameChecks(name: string)
    ensures CreateRejects(name) <==> forall i :: 0 <= i < |name| ==> IsJsSpace(name[i])
    ensures UpdateRejects(Some(name)) <==> name != "" && CreateRejects(name)
    ensures !UpdateRejects(Some("")) && CreateRejects("") && !UpdateRejects(None)
  {
    BlankIffAllSpace(name);
  }

  // ---------------------------------------------------------------------
  // Listing: SELECT * FROM habits WHERE active = 1 ORDER BY "order" ASC, id DESC

  /** a comes strictly before b in `ORDER BY "order" ASC, id DESC`. */
  predicate Before(a: Habit, b: Habit) {
    a.order < b.order || (a.order == b.order && a.id > b.id)
  }

  predicate StrictlyOrdered(s: seq<Habit>) {
    forall i, j :: 0 <= i < j < |s| ==> Before(s[i], s[j])
  }

  /** Habit ids are distinct: the primary key of `habits`. */
  predicate DistinctIds(s: seq<Habit>) {
    forall i, j :: 0 <= i < j < |s| ==> s[i].id != s[j].id
  }

  /** The habit ids of a listing, in listing order (`habit.id` of each). */
  function Ids(hs: seq<Habit>): (ids: seq<HabitId>)
    ensures |ids| == |hs|
    ensures forall k :: 0 <= k < |hs| ==> ids[k] == hs[k].id
  {
    seq(|hs|, k requires 0 <= k < |hs| => hs[k].id)
  }


  function Active(hs: seq<Habit>): (r: seq<Habit>)
    ensures forall h :: h in r <==> h in hs && h.active
    ensures |r| <= |hs|
  {
    if hs == [] then []
    else (if hs[0].active then [hs[0]] else []) + Active(hs[1..])
  }

  /** Insert h into a listing before the first habit it comes before. */
  function Insert(h: Habit, s: seq<Habit>): (r: seq<Habit>)
    ensures multiset(r) == multiset(s) + multiset{h}
    ensures |r| == |s| + 1
  {
    if s == [] then [h]
    else if Before(s[0], h) then assert s == [s[0]] + s[1..]; [s[0]] + Insert(h, s[1..])
    else [h] + s
  }

  function SortHabits(s: seq<Habit>): (r: seq<Habit>)
    ensures multiset(r) == multiset(s)
    ensures |r| == |s|
  {
    if s == [] then [] else assert s == [s[0]] + s[1..]; Insert(s[0], SortHabits(s[1..]))
  }

  /** The habits the listing query returns, in its order. */
  function Listing(hs: seq<Habit>): seq<Habit> {
    SortHabits(Active(hs))
  }

  /** Active keeps the relative order, so distinct ids stay distinct. */
  lemma {:induction false} ActiveDistinct(hs: seq<Habit>)
    requires DistinctIds(hs)
    ensures DistinctIds(Active(hs))
  {
    if hs != [] {
      ActiveDistinct(hs[1..]);
      var r := Active(hs);
      var rest := Active(hs[1..]);
      if hs[0].active {
        assert r == [hs[0]] + rest;
        forall j | 0 < j < |r|
          ensures r[0].id != r[j].id
        {
          assert r[j] in hs[1..];
        }
      }
    }
  }

  /** On distinct ids, Before is total: of two different positions one comes first. */
  lemma BeforeTotal(a: Habit, b: Habit)
    requires a.id != b.id
    ensures Before(a, b) || Before(b, a)
  {
  }

  lemma {:induction false} InsertOrdered(h: Habit, s: seq<Habit>)
    requires StrictlyOrdered(s)
    requires forall x :: x in s ==> x.id != h.id
    ensures StrictlyOrdered(Insert(h, s))
  {
    if s != [] {
      if Before(s[0], h) {
        InsertOrdered(h, s[1..]);
        var r := Insert(h, s);
        var t := Insert(h, s[1..]);
        assert r == [s[0]] + t;
        forall j | 0 < j < |r|
          ensures Before(r[0], r[j])
        {
          assert r[j] in multiset(t);
          assert r[j] in multiset(s[1..]) + multiset{h};
          if r[j] != h {
            assert r[j] in s[1..];
            var k :| 0 <= k < |s[1..]| && s[1..][k] == r[j];
            assert s[k + 1] == r[j];
          }
        }
      } else {
        BeforeTotal(s[0], h);
      }
    }
  }

  /** Sorting distinct-id habits gives the strict listing order. */
  lemma {:induction false} SortOrdered(s: seq<Habit>)
    requires DistinctIds(s)
    ensures StrictlyOrdered(SortHabits(s))
  {
    if s != [] {
      assert DistinctIds(s[1..]);
      SortOrdered(s[1..]);
      forall x | x in SortHabits(s[1..])
        ensures x.id != s[0].id
      {
        assert x in multiset(s[1..]);
        var k :| 0 <= k < |s[1..]| && s[1..][k] == x;
        assert s[k + 1] == x;
      }
      InsertOrdered(s[0], SortHabits(s[1..]));
    }
  }

  /**
   * The listing holds exactly the active habits, each once, in strict
   * `"order" ASC, id DESC` order.
   */
  lemma ListingSpec(hs: seq<Habit>)
    requires DistinctIds(hs)
    ensures multiset(Listing(hs)) == multiset(Active(hs))
    ensures forall h :: h in Listing(hs) <==> h in hs && h.active
    ensures StrictlyOrdered(Listing(hs))
  {
    ActiveDistinct(hs);
    SortOrdered(Active(hs));
    forall h | true
      ensures h in Listing(hs) <==> h in Active(hs)
    {
      assert h in Listing(hs) <==> h in multiset(Listing(hs));
      assert h in Active(hs) <==> h in multiset(Active(hs));
    }
  }

  /** Two strictly ordered arrangements of the same rows start with the same row. */
  lemma OrderedHead(a: seq<Habit>, b: seq<Habit>)
    requires StrictlyOrdered(a) && StrictlyOrdered(b) && multiset(a) == multiset(b) && a != [] && b != []
    ensures a[0] == b[0]
  {
    assert a[0] in multiset(b) && b[0] in multiset(a);
    var i :| 0 <= i < |b| && b[i] == a[0];
    var j :| 0 <= j < |a| && a[j] == b[0];
  }

  /**
   * ORDER BY determines the result: two strictly ordered arrangements of
   * the same rows are the same sequence.
   */
  lemma {:induction false} OrderedUnique(a: seq<Habit>, b: seq<Habit>)
    requires StrictlyOrdered(a) && StrictlyOrdered(b) && multiset(a) == multiset(b)
    ensures a == b
    decreases |a|
  {
    assert |a| == |multiset(a)| == |b|;
    if a != [] {
      OrderedHead(a, b);
      assert a == [a[0]] + a[1..] && b == [b[0]] + b[1..];
      assert multiset(a[1..]) == multiset(a) - multiset{a[0]};
      assert multiset(b[1..]) == multiset(b) - multiset{b[0]};
      OrderedUnique(a[1..], b[1..]);
    }
  }

  // ---------------------------------------------------------------------
  // Create: SELECT COALESCE(MAX("order"), 0) FROM habits WHERE active = 1

  /** `COALESCE(MAX("order"), 0)` over the active habits. */
  function MaxActiveOrder(hs: seq<Habit>): (m: int)
    ensures forall h :: h in hs && h.active ==> h.order <= m
    ensures m == 0 || exists h :: h in hs && h.active && h.order == m
    ensures (forall h :: h in hs ==> !h.active) ==> m == 0
  {
    if hs == [] then 0
    else
      var rest := MaxActiveOrder(hs[1..]);
      if !hs[0].active then rest
      else if (exists h :: h in hs[1..] && h.active) then (if hs[0].order > rest then hs[0].order else rest)
      else hs[0].order
  }

  /** The row a successful create inserts: active, last in order, with the app's defaults. */
  function NewHabit(hs: seq<Habit>, id: HabitId, name: string, description: Option<string>, icon: Option<string>,
                    color: Option<string>, frequency: Option<Frequency>, target: Option<int>, now: Timestamp): (h: Habit)
    ensures h.active && h.id == id && h.name == name && h.createdAt == now
    ensures forall x :: x in hs && x.active ==> h.order > x.order
    ensures (forall x :: x in hs ==> !x.active) ==> h.order == 1
    ensures description.None? ==> h.description == ""
    ensures icon.None? ==> h.icon == ""
    ensures color.None? ==> h.color == ""
    ensures frequency.None? ==> h.frequency == Daily
    ensures target.None? ==> h.target == 0
    ensures description.Some? ==> h.description == description.value
    ensures icon.Some? ==> h.icon == icon.value
    ensures color.Some? ==> h.color == color.value
    ensures frequency.Some? ==> h.frequency == frequency.value
    ensures target.Some? ==> h.target == target.value
  {
    Habit(id, name, description.GetOr(""), icon.GetOr(""), color.GetOr(""), now,
          frequency.GetOr(Daily), target.GetOr(0), true, MaxActiveOrder(hs) + 1)
  }

  /** A created habit with an id not yet used is listed last. */
  lemma NewHabitListedLast(hs: seq<Habit>, h: Habit)
    requires DistinctIds(hs) && h.active
    requires forall x :: x in hs ==> x.id != h.id
    requires forall x :: x in hs && x.active ==> x.order < h.order
    ensures Listing(hs + [h]) == Listing(hs) + [h]
  {
    var all := hs + [h];
    assert DistinctIds(all) by {
      forall i, j | 0 <= i < j < |all|
        ensures all[i].id != all[j].id
      {
        if j == |hs| { assert all[i] in hs; }
        else { assert all[i] == hs[i] && all[j] == hs[j]; }
      }
    }
    ListingSpec(all);
    ListingSpec(hs);
    ActiveAppend(hs, h);
    var want := Listing(hs) + [h];
    assert StrictlyOrdered(want) by {
      forall i, j | 0 <= i < j < |want|
        ensures Before(want[i], want[j])
      {
        if j == |want| - 1 {
          assert want[i] in Listing(hs);
        } else {
          assert want[i] == Listing(hs)[i] && want[j] == Listing(hs)[j];
        }
      }
    }
    OrderedUnique(Listing(all), want);
  }

  lemma {:induction false} ActiveAppend(hs: seq<Habit>, h: Habit)
    requires h.active
    ensures Active(hs + [h]) == Active(hs) + [h]
    decreases |hs|
  {
    if hs == [] {
      assert Active([h]) == [h] + Active([]);
    } else {
      assert (hs + [h])[1..] == hs[1..] + [h];
      ActiveAppend(hs[1..], h);
    }
  }

  // ---------------------------------------------------------------------
  // Update: the dynamic SET list

  /** The optional fields of an update; `None` is an omitted (undefined) field. */
  datatype Patch = Patch(
    name: Option<string>,
    description: Option<string>,
    icon: Option<string>,
    color: Option<string>,
    frequency: Option<Frequency>,
    target: Option<int>)

  /** One `column = ?` of the SET list, with its bound value. */
  datatype Assignment =
    | SetName(name: string)
    | SetDescription(description: string)
    | SetIcon(icon: string)
    | SetColor(color: string)
    | SetFrequency(frequency: Frequency)
    | SetTarget(target: int)

  predicate NoFields(p: Patch) {
    p.name.None? && p.description.None? && p.icon.None? && p.color.None? && p.frequency.None? && p.target.None?
  }

  function Assign(h: Habit, a: Assignment): Habit {
    match a
    case SetName(v) => h.(name := v)
    case SetDescription(v) => h.(description := v)
    case SetIcon(v) => h.(icon := v)
    case SetColor(v) => h.(color := v)
    case SetFrequency(v) => h.(frequency := v)
    case SetTarget(v) => h.(target := v)
  }

  /** `UPDATE habits SET a1, a2, ...` on one row. */
  function AssignAll(h: Habit, updates: seq<Assignment>): Habit
    decreases |updates|
  {
    if updates == [] then h else AssignAll(Assign(h, updates[0]), updates[1..])
  }

  /** The intended effect of a patch: every supplied field takes its value, every omitted one keeps its own. */
  function Patched(h: Habit, p: Patch): Habit {
    h.(name := p.name.GetOr(h.name),
       description := p.description.GetOr(h.description),
       icon := p.icon.GetOr(h.icon),
       color := p.color.GetOr(h.color),
       frequency := p.frequency.GetOr(h.frequency),
       target := p.target.GetOr(h.target))
  }

  lemma AssignAllAppend(h: Habit, updates: seq<Assignment>, a: Assignment)
    ensures AssignAll(h, updates + [a]) == Assign(AssignAll(h, updates), a)
    decreases |updates|
  {
    if updates != [] {
      assert (updates + [a])[1..] == updates[1..] + [a];
      AssignAllAppend(Assign(h, updates[0]), updates[1..], a);
    }
  }

  /**
   * The pushes of lines 113-139: one assignment per supplied field, in
   * column order; together they write exactly the patch.
   */
  method BuildUpdate(p: Patch) returns (updates: seq<Assignment>)
    ensures |updates| == 0 <==> NoFields(p)
    ensures forall h :: AssignAll(h, updates) == Patched(h, p)
  {
    updates := [];
    ghost var stage := Patch(None, None, None, None, None, None);
    if p.name.Some? {
      updates := updates + [SetName(p.name.value)];
    }
    stage := stage.(name := p.name);
    assert forall h :: AssignAll(h, updates) == Patched(h, stage) by {
      forall h ensures AssignAll(h, updates) == Patched(h, stage) {
        if p.name.Some? { AssignAllAppend(h, [], SetName(p.name.value)); }
      }
    }
    if p.description.Some? {
      ghost var before := updates;
      updates := updates + [SetDescription(p.description.value)];
      forall h ensures AssignAll(h, updates) == Patched(h, stage.(description := p.description)) {
        AssignAllAppend(h, before, SetDescription(p.description.value));
      }
    }
    stage := stage.(description := p.description);
    if p.icon.Some? {
      ghost var before := updates;
      updates := updates + [SetIcon(p.icon.value)];
      forall h ensures AssignAll(h, updates) == Patched(h, stage.(icon := p.icon)) {
        AssignAllAppend(h, before, SetIcon(p.icon.value));
      }
    }
    stage := stage.(icon := p.icon);
    if p.color.Some? {
      ghost var before := updates;
      updates := updates + [SetColor(p.color.value)];
      forall h ensures AssignAll(h, updates) == Patched(h, stage.(color := p.color)) {
        AssignAllAppend(h, before, SetColor(p.color.value));
      }
    }
    stage := stage.(color := p.color);
    if p.frequency.Some? {
      ghost var before := updates;
      updates := updates + [SetFrequency(p.frequency.value)];
      forall h ensures AssignAll(h, updates) == Patched(h, stage.(frequency := p.frequency)) {
        AssignAllAppend(h, before, SetFrequency(p.frequency.value));
      }
    }
    stage := stage.(frequency := p.frequency);
    if p.target.Some? {
      ghost var before := updates;
      updates := updates + [SetTarget(p.target.value)];
      forall h ensures AssignAll(h, updates) == Patched(h, stage.(target := p.target)) {
        AssignAllAppend(h, before, SetTarget(p.target.value));
      }
    }
    stage := stage.(target := p.target);
    assert stage == p;
  }

  /** An update changes only the supplied fields, and never the id, activity, order or creation time. */
  lemma PatchedKeepsOthers(h: Habit, p: Patch)
    ensures var r := Patched(h, p);
      && r.id == h.id && r.active == h.active && r.order == h.order && r.createdAt == h.createdAt
      && (p.name.None? ==> r.name == h.name) && (p.name.Some? ==> r.name == p.name.value)
      && (p.description.None? ==> r.description == h.description)
      && (p.icon.None? ==> r.icon == h.icon) && (p.color.None? ==> r.color == h.color)
      && (p.frequency.None? ==> r.frequency == h.frequency) && (p.target.None? ==> r.target == h.target)
      && (NoFields(p) ==> r == h)
  {
  }

  // ---------------------------------------------------------------------
  // Row updates: UPDATE habits SET ... WHERE id = ?

  /** Apply a patch to the row with the given id. */
  function PatchWhere(hs: seq<Habit>, id: HabitId, p: Patch): (r: seq<Habit>)
    ensures |r| == |hs|
    ensures forall k :: 0 <= k < |hs| ==> r[k] == if hs[k].id == id then Patched(hs[k], p) else hs[k]
  {
    seq(|hs|, k requires 0 <= k < |hs| => if hs[k].id == id then Patched(hs[k], p) else hs[k])
  }

  /** `UPDATE habits SET "order" = ? WHERE id = ?`. */
  function WithOrder(hs: seq<Habit>, id: HabitId, order: int): (r: seq<Habit>)
    ensures |r| == |hs|
    ensures forall k :: 0 <= k < |hs| ==> r[k] == if hs[k].id == id then hs[k].(order := order) else hs[k]
  {
    seq(|hs|, k requires 0 <= k < |hs| => if hs[k].id == id then hs[k].(order := order) else hs[k])
  }

  /** `UPDATE habits SET active = 0 WHERE id = ?`. */
  function Archived(hs: seq<Habit>, id: HabitId): (r: seq<Habit>)
    ensures |r| == |hs|
    ensures forall k :: 0 <= k < |hs| ==> r[k] == if hs[k].id == id then hs[k].(active := false) else hs[k]
  {
    seq(|hs|, k requires 0 <= k < |hs| => if hs[k].id == id then hs[k].(active := false) else hs[k])
  }

  /** `DELETE FROM habits WHERE id = ?`. */
  function Without(hs: seq<Habit>, id: HabitId): (r: seq<Habit>)
    ensures forall h :: h in r <==> h in hs && h.id != id
    ensures |r| <= |hs|
  {
    if hs == [] then []
    else (if hs[0].id == id then [] else [hs[0]]) + Without(hs[1..], id)
  }

  /** With distinct ids no habit occurs twice. */
  lemma {:induction false} DistinctCountsOne(a: seq<Habit>)
    requires DistinctIds(a)
    ensures forall x :: multiset(a)[x] <= 1
    decreases |a|
  {
    if a != [] {
      assert DistinctIds(a[1..]);
      DistinctCountsOne(a[1..]);
      assert a == [a[0]] + a[1..];
      assert a[0] !in a[1..];
    }
  }

  /** A habit at two positions occurs at least twice. */
  lemma RepeatCountsTwo(b: seq<Habit>, i: int, j: int)
    requires 0 <= i < j < |b|
    ensures b[i] == b[j] ==> multiset(b)[b[i]] >= 2
  {
    assert b == b[..j] + b[j..];
    assert b[i] in b[..j] && b[j] in b[j..];
  }

  /** A rearrangement of habits with distinct ids has distinct ids. */
  lemma DistinctOfSameMultiset(a: seq<Habit>, b: seq<Habit>)
    requires DistinctIds(a) && multiset(a) == multiset(b)
    ensures DistinctIds(b)
  {
    DistinctCountsOne(a);
    forall i, j | 0 <= i < j < |b|
      ensures b[i].id != b[j].id
    {
      RepeatCountsTwo(b, i, j);
      assert b[i] in multiset(a) && b[j] in multiset(a);
    }
  }

  /** The listing has distinct ids. */
  lemma ListingDistinct(hs: seq<Habit>)
    requires DistinctIds(hs)
    ensures DistinctIds(Listing(hs))
  {
    ListingSpec(hs);
    ActiveDistinct(hs);
    DistinctOfSameMultiset(Active(hs), Listing(hs));
  }

  /** Deleting a row keeps the other rows' ids distinct. */
  lemma {:induction false} WithoutDistinct(hs: seq<Habit>, id: HabitId)
    requires DistinctIds(hs)
    ensures DistinctIds(Without(hs, id))
    decreases |hs|
  {
    if hs != [] {
      var rest := hs[1..];
      assert forall k :: 0 <= k < |rest| ==> rest[k] == hs[k + 1];
      WithoutDistinct(rest, id);
      var w := Without(rest, id);
      if hs[0].id != id {
        var r := [hs[0]] + w;
        forall j | 0 <= j < |w|
          ensures w[j].id != hs[0].id
        {
          var k :| 0 <= k < |rest| && rest[k] == w[j];
          assert hs[k + 1] == w[j];
        }
        assert forall k :: 0 < k < |r| ==> r[k] == w[k - 1];
      }
    }
  }

  /** Deleting a row keeps an ordered sequence ordered. */
  lemma {:induction false} WithoutOrdered(hs: seq<Habit>, id: HabitId)
    requires StrictlyOrdered(hs)
    ensures StrictlyOrdered(Without(hs, id))
    decreases |hs|
  {
    if hs != [] {
      var rest := hs[1..];
      assert forall k :: 0 <= k < |rest| ==> rest[k] == hs[k + 1];
      WithoutOrdered(rest, id);
      var w := Without(rest, id);
      if hs[0].id != id {
        var r := [hs[0]] + w;
        forall j | 0 <= j < |w|
          ensures Before(hs[0], w[j])
        {
          var k :| 0 <= k < |rest| && rest[k] == w[j];
          assert hs[k + 1] == w[j];
        }
        assert forall k :: 0 < k < |r| ==> r[k] == w[k - 1];
      }
    }
  }

  /** Two lists of habits with distinct ids and the same members are rearrangements of each other. */
  lemma SameMembersSameMultiset(a: seq<Habit>, b: seq<Habit>)
    requires DistinctIds(a) && DistinctIds(b)
    requires forall h :: h in a <==> h in b
    ensures multiset(a) == multiset(b)
  {
    DistinctCountsOne(a);
    DistinctCountsOne(b);
    forall x
      ensures multiset(a)[x] == multiset(b)[x]
    {
      assert x in multiset(a) <==> x in a;
      assert x in multiset(b) <==> x in b;
    }
  }

  /** A listing that is an ordered rearrangement of the old listing without `id` is that sequence. */
  lemma ListingWithout(hs: seq<Habit>, r: seq<Habit>, id: HabitId)
    requires DistinctIds(hs) && DistinctIds(r)
    requires forall h :: h in Listing(r) <==> h in Listing(hs) && h.id != id
    ensures Listing(r) == Without(Listing(hs), id)
  {
    ListingSpec(hs);
    ListingSpec(r);
    ListingDistinct(hs);
    ListingDistinct(r);
    WithoutDistinct(Listing(hs), id);
    WithoutOrdered(Listing(hs), id);
    SameMembersSameMultiset(Listing(r), Without(Listing(hs), id));
    OrderedUnique(Listing(r), Without(Listing(hs), id));
  }

  /** Deleting takes the habit out of the listing and keeps every other listed habit, in order. */
  lemma DeletedListing(hs: seq<Habit>, id: HabitId)
    requires DistinctIds(hs)
    ensures forall h :: h in Listing(Without(hs, id)) <==> h in Listing(hs) && h.id != id
    ensures Listing(Without(hs, id)) == Without(Listing(hs), id)
  {
    WithoutDistinct(hs, id);
    ListingSpec(hs);
    ListingSpec(Without(hs, id));
    ListingWithout(hs, Without(hs, id), id);
  }

  /** Archiving takes the habit out of the listing and keeps every other listed habit, in order. */
  lemma ArchivedListing(hs: seq<Habit>, id: HabitId)
    requires DistinctIds(hs)
    ensures forall h :: h in Listing(Archived(hs, id)) <==> h in Listing(hs) && h.id != id
    ensures Listing(Archived(hs, id)) == Without(Listing(hs), id)
  {
    var a := Archived(hs, id);
    assert DistinctIds(a);
    ListingSpec(hs);
    ListingSpec(a);
    forall h | true
      ensures h in a && h.active <==> h in hs && h.active && h.id != id
    {
      if h in a && h.active {
        var k :| 0 <= k < |a| && a[k] == h;
        assert hs[k] == h;
      }
      if h in hs && h.active && h.id != id {
        var k :| 0 <= k < |hs| && hs[k] == h;
        assert a[k] == h;
      }
    }
    ListingWithout(hs, a, id);
  }

  // ---------------------------------------------------------------------
  // Reorder

  /** The last position of x in ids. */
  function LastIndex(ids: seq<HabitId>, x: HabitId): (r: nat)
    requires x in ids
    ensures r < |ids| && ids[r] == x
    ensures forall j :: r < j < |ids| ==> ids[j] != x
    decreases |ids|
  {
    if ids[|ids| - 1] == x then |ids| - 1 else LastIndex(ids[..|ids| - 1], x)
  }

  /** The order a habit ends with after the reorder loop over ids. */
  function ReorderedOrder(ids: seq<HabitId>, h: Habit): int {
    if h.id in ids then LastIndex(ids, h.id) + 1 else h.order
  }

  /** Every habit takes 1 + its last position in ids; habits not in ids keep their order. */
  function Reordered(hs: seq<Habit>, ids: seq<HabitId>): (r: seq<Habit>)
    ensures |r| == |hs|
    ensures forall k :: 0 <= k < |hs| ==> r[k] == hs[k].(order := ReorderedOrder(ids, hs[k]))
  {
    seq(|hs|, k requires 0 <= k < |hs| => hs[k].(order := ReorderedOrder(ids, hs[k])))
  }

  /** One more iteration of the reorder loop sets the order of ids' next id. */
  lemma ReorderedStep(hs: seq<Habit>, ids: seq<HabitId>, x: HabitId)
    ensures WithOrder(Reordered(hs, ids), x, |ids| + 1) == Reordered(hs, ids + [x])
  {
    var a := WithOrder(Reordered(hs, ids), x, |ids| + 1);
    var b := Reordered(hs, ids + [x]);
    forall k | 0 <= k < |hs|
      ensures a[k] == b[k]
    {
      var h := hs[k];
      if h.id == x {
        assert (ids + [x])[|ids|] == x;
      } else if h.id in ids {
        assert h.id in ids + [x];
        var p := LastIndex(ids, h.id);
        var q := LastIndex(ids + [x], h.id);
        assert (ids + [x])[p] == h.id;
        assert q < |ids|;
        assert ids[q] == h.id;
      } else {
        assert h.id !in ids + [x];
      }
    }
  }

  /**
   * After the reorder every listed id's habit has order 1 + (its last
   * position), so a repeated id ends with its last position; the other
   * habits keep their order and every habit keeps its other fields.
   */
  lemma ReorderedSpec(hs: seq<Habit>, ids: seq<HabitId>, k: int)
    requires 0 <= k < |hs|
    ensures var r := Reordered(hs, ids)[k];
      && r == hs[k].(order := r.order)
      && (hs[k].id in ids ==> 1 <= r.order <= |ids| && ids[r.order - 1] == hs[k].id
                              && forall j :: r.order - 1 < j < |ids| ==> ids[j] != hs[k].id)
      && (hs[k].id !in ids ==> r.order == hs[k].order)
  {
  }

  /** An empty reorder list leaves the table as it is. */
  lemma ReorderedEmpty(hs: seq<Habit>)
    ensures Reordered(hs, []) == hs
  {
  }
}

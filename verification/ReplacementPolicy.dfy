/** The replacement-policy modules: the abstract state of one cache set, updated in place. */
module ReplacementPolicy {
  import opened AgeDomain

  datatype Option<+T> = None | Some(value: T)

  datatype Entry = Entry(line: Line, age: nat)

  // ---------------------------------------------------------------- entry vectors

  /** The age of the first entry for `line`. */
  function Find(s: seq<Entry>, line: Line): Option<nat> {
    if s == [] then None
    else if s[0].line == line then Some(s[0].age)
    else Find(s[1..], line)
  }

  ghost predicate DistinctLines(s: seq<Entry>) {
    forall i, j :: 0 <= i < j < |s| ==> s[i].line != s[j].line
  }

  /** The value a vector of entries denotes. */
  ghost function AgesOf(s: seq<Entry>): Ages {
    if s == [] then map[] else AgesOf(s[..|s| - 1])[s[|s| - 1].line := s[|s| - 1].age]
  }

  lemma {:induction false} AgesOfSnoc(s: seq<Entry>, e: Entry)
    ensures AgesOf(s + [e]) == AgesOf(s)[e.line := e.age]
  {
    assert (s + [e])[..|s|] == s;
  }

  lemma {:induction false} AgesOfAt(s: seq<Entry>, i: nat)
    requires DistinctLines(s) && i < |s|
    ensures s[i].line in AgesOf(s) && AgesOf(s)[s[i].line] == s[i].age
  {
    if i < |s| - 1 { AgesOfAt(s[..|s| - 1], i); }
  }

  lemma {:induction false} AgesOfListed(s: seq<Entry>, line: Line) returns (i: nat)
    requires line in AgesOf(s)
    ensures i < |s| && s[i].line == line
  {
    if s[|s| - 1].line == line { i := |s| - 1; } else { i := AgesOfListed(s[..|s| - 1], line); }
  }

  lemma AgesOfKey(s: seq<Entry>, line: Line)
    ensures line in AgesOf(s) ==> exists i :: 0 <= i < |s| && s[i].line == line
  {
    if line in AgesOf(s) { var i := AgesOfListed(s, line); }
  }

  lemma AgesOfAppend(s: seq<Entry>, e: Entry)
    requires DistinctLines(s) && e.line !in AgesOf(s)
    ensures DistinctLines(s + [e])
    ensures AgesOf(s + [e]) == AgesOf(s)[e.line := e.age]
  {
    AgesOfSnoc(s, e);
    forall i | 0 <= i < |s| ensures s[i].line != e.line { AgesOfAt(s, i); }
  }

  lemma AgesOfPrefix(s: seq<Entry>, i: nat)
    requires DistinctLines(s) && i < |s|
    ensures s[i].line !in AgesOf(s[..i])
    ensures AgesOf(s[..i + 1]) == AgesOf(s[..i])[s[i].line := s[i].age]
  {
    assert s[..i + 1] == s[..i] + [s[i]];
    AgesOfSnoc(s[..i], s[i]);
    AgesOfKey(s[..i], s[i].line);
  }

  /** A map is the value of a vector when it agrees with every entry and has no other key. */
  lemma AgesOfIs(s: seq<Entry>, m: Ages)
    requires DistinctLines(s)
    requires forall i :: 0 <= i < |s| ==> s[i].line in m && m[s[i].line] == s[i].age
    requires forall q :: q in m ==> exists i :: 0 <= i < |s| && s[i].line == q
    ensures AgesOf(s) == m
  {
    forall q ensures q in AgesOf(s) <==> q in m {
      AgesOfKey(s, q);
      if q in m { var i :| 0 <= i < |s| && s[i].line == q; AgesOfAt(s, i); }
    }
    forall q | q in m ensures AgesOf(s)[q] == m[q] {
      var i :| 0 <= i < |s| && s[i].line == q;
      AgesOfAt(s, i);
    }
  }

  lemma AgesOfSet(s: seq<Entry>, i: nat, age: nat)
    requires DistinctLines(s) && i < |s|
    ensures DistinctLines(s[i := s[i].(age := age)])
    ensures AgesOf(s[i := s[i].(age := age)]) == AgesOf(s)[s[i].line := age]
  {
    var t := s[i := s[i].(age := age)];
    var m := AgesOf(s)[s[i].line := age];
    forall j | 0 <= j < |t| ensures t[j].line in m && m[t[j].line] == t[j].age {
      AgesOfAt(s, j);
    }
    forall q | q in m ensures exists j :: 0 <= j < |t| && t[j].line == q {
      AgesOfKey(s, q);
      var j :| 0 <= j < |s| && s[j].line == q;
      assert t[j].line == q;
    }
    AgesOfIs(t, m);
  }

  lemma {:induction false} FindFirst(s: seq<Entry>, line: Line)
    ensures Find(s, line).Some? ==> Entry(line, Find(s, line).value) in s
    ensures Find(s, line).None? ==> forall i :: 0 <= i < |s| ==> s[i].line != line
  {
    if s != [] {
      assert s == [s[0]] + s[1..];
      FindFirst(s[1..], line);
    }
  }

  lemma FindIs(s: seq<Entry>, line: Line)
    requires DistinctLines(s)
    ensures Find(s, line) == if line in AgesOf(s) then Some(AgesOf(s)[line]) else None
  {
    FindFirst(s, line);
    AgesOfKey(s, line);
    if Find(s, line).Some? {
      var e := Entry(line, Find(s, line).value);
      var i :| 0 <= i < |s| && s[i] == e;
      AgesOfAt(s, i);
    }
  }

  // ---------------------------------------------------------------- equality up to order

  predicate Precedes(a: Entry, b: Entry) { a.line < b.line || (a.line == b.line && a.age <= b.age) }

  function Insert(e: Entry, s: seq<Entry>): seq<Entry> {
    if s == [] || Precedes(e, s[0]) then [e] + s else [s[0]] + Insert(e, s[1..])
  }

  /** The entries in ascending order of line, then age. */
  function Sorted(s: seq<Entry>): seq<Entry> {
    if s == [] then [] else Insert(s[0], Sorted(s[1..]))
  }

  predicate SameEntries(a: seq<Entry>, b: seq<Entry>) { Sorted(a) == Sorted(b) }

  ghost predicate AscendingLines(s: seq<Entry>) {
    forall i, j :: 0 <= i < j < |s| ==> s[i].line < s[j].line
  }

  lemma {:induction false} InsertKeeps(e: Entry, s: seq<Entry>)
    requires AscendingLines(s) && forall i :: 0 <= i < |s| ==> s[i].line != e.line
    ensures AscendingLines(Insert(e, s))
    ensures forall x :: x in Insert(e, s) <==> x == e || x in s
  {
    if s == [] || Precedes(e, s[0]) {
    } else {
      var t := s[1..];
      assert s == [s[0]] + t;
      InsertKeeps(e, t);
      var r := Insert(e, t);
      forall i | 0 <= i < |r| ensures s[0].line < r[i].line {
        assert r[i] in r;
        if r[i] != e { var j :| 0 <= j < |t| && t[j] == r[i]; assert s[j + 1] == r[i]; }
      }
    }
  }

  lemma {:induction false} SortedKeeps(s: seq<Entry>)
    requires DistinctLines(s)
    ensures AscendingLines(Sorted(s))
    ensures forall x :: x in Sorted(s) <==> x in s
  {
    if s != [] {
      assert s == [s[0]] + s[1..];
      SortedKeeps(s[1..]);
      var t := Sorted(s[1..]);
      forall i | 0 <= i < |t| ensures t[i].line != s[0].line {
        assert t[i] in t;
        var j :| 0 <= j < |s[1..]| && s[1..][j] == t[i];
      }
      InsertKeeps(s[0], t);
    }
  }

  lemma TailMembers(a: seq<Entry>, b: seq<Entry>)
    requires AscendingLines(a) && |a| > 0 && |b| > 0 && a[0] == b[0]
    requires forall x :: x in a ==> x in b
    ensures forall x :: x in a[1..] ==> x in b[1..]
  {
    forall x | x in a[1..] ensures x in b[1..] {
      var k :| 0 <= k < |a[1..]| && a[1..][k] == x;
      assert a[k + 1] == x && a[0].line < x.line;
      assert x in a && x in b;
      assert b == [b[0]] + b[1..];
    }
  }

  lemma {:induction false} AscendingUnique(a: seq<Entry>, b: seq<Entry>)
    requires AscendingLines(a) && AscendingLines(b)
    requires forall x :: x in a <==> x in b
    ensures a == b
  {
    assert a != [] ==> a[0] in b;
    assert b != [] ==> b[0] in a;
    if a != [] {
      assert a[0] == b[0];
      TailMembers(a, b);
      TailMembers(b, a);
      AscendingUnique(a[1..], b[1..]);
      assert a == [a[0]] + a[1..] && b == [b[0]] + b[1..];
    }
  }

  /** Comparing sorted copies decides equality of the denoted values, whatever the vector order. */
  lemma SameEntriesSound(a: seq<Entry>, b: seq<Entry>)
    requires DistinctLines(a) && DistinctLines(b)
    ensures SameEntries(a, b) <==> AgesOf(a) == AgesOf(b)
  {
    SortedKeeps(a);
    SortedKeeps(b);
    if SameEntries(a, b) {
      SameMembersSameAges(a, b);
    } else if AgesOf(a) == AgesOf(b) {
      SameAgesMembers(a, b);
      SameAgesMembers(b, a);
      AscendingUnique(Sorted(a), Sorted(b));
    }
  }

  lemma SameMembersSameAges(a: seq<Entry>, b: seq<Entry>)
    requires DistinctLines(a) && DistinctLines(b)
    requires forall x :: x in a <==> x in b
    ensures AgesOf(a) == AgesOf(b)
  {
    forall i | 0 <= i < |a| ensures a[i].line in AgesOf(b) && AgesOf(b)[a[i].line] == a[i].age {
      assert a[i] in b;
      var j :| 0 <= j < |b| && b[j] == a[i];
      AgesOfAt(b, j);
    }
    forall q | q in AgesOf(b) ensures exists i :: 0 <= i < |a| && a[i].line == q {
      AgesOfKey(b, q);
      var j :| 0 <= j < |b| && b[j].line == q;
      assert b[j] in a;
    }
    AgesOfIs(a, AgesOf(b));
  }

  lemma SameAgesMembers(a: seq<Entry>, b: seq<Entry>)
    requires DistinctLines(a) && DistinctLines(b) && AgesOf(a) == AgesOf(b)
    ensures forall x :: x in a ==> x in b
  {
    forall x | x in a ensures x in b {
      var i :| 0 <= i < |a| && a[i] == x;
      AgesOfAt(a, i);
      AgesOfKey(b, x.line);
      var j :| 0 <= j < |b| && b[j].line == x.line;
      AgesOfAt(b, j);
    }
  }

  // ---------------------------------------------------------------- set states

  /** The state of one cache set: `line` is used by the unknown policy, `lines` by the age-based ones. */
  class CacheSetState {
    var line: Option<Line>
    var lines: seq<Entry>

    constructor ()
      ensures line == None && lines == []
    {
      line, lines := None, [];
    }

    constructor Clone(other: CacheSetState)
      ensures line == other.line && lines == other.lines
    {
      line, lines := other.line, other.lines;
    }

    ghost predicate Valid()
      reads this
    {
      DistinctLines(lines) && (line.Some? ==> lines == [])
    }

    ghost function View(): Ages
      reads this
    {
      if line.Some? then map[line.value := 0] else AgesOf(lines)
    }

    /** Makes every line one step older. */
    method AgeAll()
      requires Valid() && line == None
      modifies this
      ensures Valid() && line == None
      ensures View() == Older(old(View()), old(View()))
    {
      ghost var before := lines;
      OlderStart(before);
      hide DistinctLines, AgesOf, Older;
      var i := 0;
      while i < |lines|
        invariant 0 <= i <= |lines| == |before| && line == None
        invariant DistinctLines(lines) && lines[i..] == before[i..]
        invariant AgesOf(lines) == Older(AgesOf(before), AgesOf(before[..i]))
      {
        assert lines[i] == lines[i..][0] == before[i];
        assert lines[i + 1..] == lines[i..][1..] == before[i..][1..] == before[i + 1..];
        AgesOfPrefix(before, i);
        AgesOfAt(before, i);
        OlderSnoc(AgesOf(before), AgesOf(before[..i]), before[i]);
        AgesOfSet(lines, i, lines[i].age + 1);
        lines := lines[i := lines[i].(age := lines[i].age + 1)];
        i := i + 1;
      }
      assert before[..|before|] == before;
    }

    /** Removes the lines whose age has reached `ways`. */
    method DropOld(ways: nat)
      requires Valid() && line == None
      modifies this
      ensures Valid() && line == None
      ensures View() == Within(ways, old(View()))
    {
      var kept: seq<Entry> := [];
      var i := 0;
      while i < |lines|
        invariant 0 <= i <= |lines| && line == None && lines == old(lines)
        invariant DistinctLines(kept)
        invariant AgesOf(kept) == Within(ways, AgesOf(lines[..i]))
      {
        AgesOfPrefix(lines, i);
        WithinSnoc(ways, AgesOf(lines[..i]), lines[i]);
        if lines[i].age < ways {
          AgesOfAppend(kept, lines[i]);
          kept := kept + [lines[i]];
        }
        i := i + 1;
      }
      assert lines[..|lines|] == lines;
      lines := kept;
    }

    /** Inserts `newLine` as the youngest line, ages every other one and drops those too old. */
    method InsertMiss(ways: nat, newLine: Line)
      requires Valid() && line == None && newLine !in View()
      modifies this
      ensures Valid() && line == None
      ensures View() == AgeDomain.InsertMiss(ways, old(View()), newLine)
    {
      AgeAll();
      DropOld(ways);
      AgesOfAppend(lines, Entry(newLine, 0));
      lines := lines + [Entry(newLine, 0)];
    }

    /** Applies an LRU access: a hit moves the line to the front and ages the younger ones. */
    method LruUpdate(ways: nat, accessed: Line)
      requires Valid() && line == None
      modifies this
      ensures Valid() && line == None
      ensures View() == AgeDomain.LruUpdate(ways, old(View()), accessed)
    {
      ghost var before := lines;
      var p := 0;
      while p < |lines|
        invariant 0 <= p <= |lines| && lines == before && line == None
        invariant forall j :: 0 <= j < p ==> lines[j].line != accessed
      {
        if lines[p].line == accessed {
          var a := lines[p].age;
          var q := 0;
          while q < |lines|
            invariant 0 <= q <= |lines| == |before| && line == None
            invariant forall j :: 0 <= j < |lines| ==> lines[j].line == before[j].line
            invariant forall j :: 0 <= j < q ==>
                        lines[j].age == if before[j].age < a then before[j].age + 1 else before[j].age
            invariant forall j :: q <= j < |lines| ==> lines[j].age == before[j].age
          {
            if lines[q].age < a {
              lines := lines[q := lines[q].(age := lines[q].age + 1)];
            }
            q := q + 1;
          }
          lines := lines[p := lines[p].(age := 0)];
          HitAges(ways, before, p, lines);
          return;
        }
        p := p + 1;
      }
      AgesOfKey(lines, accessed);
      InsertMiss(ways, accessed);
    }

    /** Applies a FIFO access: a hit leaves the queue untouched. */
    method FifoUpdate(ways: nat, accessed: Line)
      requires Valid() && line == None
      modifies this
      ensures Valid() && line == None
      ensures View() == AgeDomain.FifoUpdate(ways, old(View()), accessed)
    {
      FindIs(lines, accessed);
      if Find(lines, accessed) != None {
        return;
      }
      InsertMiss(ways, accessed);
    }

    /** Meets `other` into this state, reporting whether it changed. */
    method AgeJoin(other: CacheSetState, kind: Kind) returns (changed: bool)
      requires Valid() && other.Valid() && line == None && other.line == None
      modifies this
      ensures Valid() && line == None
      ensures View() == Join(kind, old(View()), old(other.View()))
      ensures changed <==> View() != old(View())
    {
      var merged := MergeEntries(lines, other.lines, kind);
      SameEntriesSound(lines, merged);
      if SameEntries(lines, merged) {
        return false;
      }
      lines := merged;
      return true;
    }
  }

  /** `m` with the lines listed in `done` one step older. */
  ghost function Older(m: Ages, done: Ages): Ages { map q | q in m :: if q in done then m[q] + 1 else m[q] }

  lemma OlderStart(s: seq<Entry>)
    ensures Older(AgesOf(s), AgesOf(s[..0])) == AgesOf(s)
  {}

  lemma OlderSnoc(m: Ages, done: Ages, e: Entry)
    requires e.line in m && m[e.line] == e.age && e.line !in done
    ensures Older(m, done[e.line := e.age]) == Older(m, done)[e.line := e.age + 1]
  {}

  ghost function Within(ways: nat, m: Ages): Ages { map q | q in m && m[q] < ways :: m[q] }

  lemma WithinSnoc(ways: nat, m: Ages, e: Entry)
    requires e.line !in m
    ensures Within(ways, m[e.line := e.age]) == if e.age < ways then Within(ways, m)[e.line := e.age] else Within(ways, m)
  {}

  lemma HitAges(ways: nat, before: seq<Entry>, p: nat, after: seq<Entry>)
    requires DistinctLines(before) && p < |before| == |after|
    requires forall j :: 0 <= j < |after| ==> after[j].line == before[j].line
    requires forall j :: 0 <= j < |after| && j != p ==>
               after[j].age == if before[j].age < before[p].age then before[j].age + 1 else before[j].age
    requires after[p].age == 0
    ensures AgesOf(after) == LruUpdate(ways, AgesOf(before), before[p].line)
  {
    var m := LruUpdate(ways, AgesOf(before), before[p].line);
    AgesOfAt(before, p);
    forall i | 0 <= i < |after| ensures after[i].line in m && m[after[i].line] == after[i].age {
      AgesOfAt(before, i);
    }
    forall q | q in m ensures exists i :: 0 <= i < |after| && after[i].line == q {
      AgesOfKey(before, q);
      var j :| 0 <= j < |before| && before[j].line == q;
      assert after[j].line == q;
    }
    AgesOfIs(after, m);
  }

  /** The joined vector: the common lines at the larger age (must), or every line of either
      side at the smaller age (may). */
  method MergeEntries(a: seq<Entry>, b: seq<Entry>, kind: Kind) returns (merged: seq<Entry>)
    requires DistinctLines(a) && DistinctLines(b)
    ensures DistinctLines(merged)
    ensures AgesOf(merged) == Join(kind, AgesOf(a), AgesOf(b))
  {
    if kind == Must {
      merged := CommonEntries(a, b);
    } else {
      merged := AllEntries(a, b);
    }
  }

  method CommonEntries(a: seq<Entry>, b: seq<Entry>) returns (merged: seq<Entry>)
    requires DistinctLines(a) && DistinctLines(b)
    ensures DistinctLines(merged)
    ensures AgesOf(merged) == Join(Must, AgesOf(a), AgesOf(b))
  {
    merged := [];
    var i := 0;
    while i < |a|
      invariant 0 <= i <= |a|
      invariant DistinctLines(merged)
      invariant AgesOf(merged) == Join(Must, AgesOf(a[..i]), AgesOf(b))
    {
      FindIs(b, a[i].line);
      AgesOfPrefix(a, i);
      CommonSnoc(AgesOf(a[..i]), a[i], AgesOf(b));
      match Find(b, a[i].line) {
        case Some(age) =>
          AgesOfAppend(merged, Entry(a[i].line, Max(a[i].age, age)));
          merged := merged + [Entry(a[i].line, Max(a[i].age, age))];
        case None =>
      }
      i := i + 1;
    }
    assert a[..|a|] == a;
  }

  lemma CommonSnoc(m: Ages, e: Entry, b: Ages)
    requires e.line !in m
    ensures e.line !in Join(Must, m, b)
    ensures Join(Must, m[e.line := e.age], b) ==
            if e.line in b then Join(Must, m, b)[e.line := Max(e.age, b[e.line])] else Join(Must, m, b)
  {}

  /** `m` with the ages of the lines listed in both `done` and `b` lowered to the age in `b`. */
  ghost function Lowered(m: Ages, done: Ages, b: Ages): Ages {
    map q | q in m :: if q in done && q in b then Min(m[q], b[q]) else m[q]
  }

  lemma LoweredSnoc(m: Ages, done: Ages, e: Entry, b: Ages)
    requires e.line !in done && e.line in m && m[e.line] == e.age
    ensures Lowered(m, done[e.line := e.age], b) ==
            if e.line in b then Lowered(m, done, b)[e.line := Min(e.age, b[e.line])] else Lowered(m, done, b)
  {}

  /** `m` with the lines of `b` that are not in `a` added. */
  ghost function Extended(m: Ages, a: Ages, b: Ages): Ages {
    m + (map q | q in b && q !in a :: b[q])
  }

  lemma ExtendedSnoc(m: Ages, a: Ages, done: Ages, e: Entry)
    requires e.line !in done && m.Keys == a.Keys
    ensures e.line in Extended(m, a, done) <==> e.line in a
    ensures Extended(m, a, done[e.line := e.age]) ==
            if e.line in a then Extended(m, a, done) else Extended(m, a, done)[e.line := e.age]
  {}

  method AllEntries(a: seq<Entry>, b: seq<Entry>) returns (merged: seq<Entry>)
    requires DistinctLines(a) && DistinctLines(b)
    ensures DistinctLines(merged)
    ensures AgesOf(merged) == Join(May, AgesOf(a), AgesOf(b))
  {
    merged := LowerEntries(a, b);
    merged := AddMissing(merged, a, b);
  }

  method AddMissing(low: seq<Entry>, a: seq<Entry>, b: seq<Entry>) returns (merged: seq<Entry>)
    requires DistinctLines(low) && DistinctLines(a) && DistinctLines(b) && AgesOf(low).Keys == AgesOf(a).Keys
    ensures DistinctLines(merged)
    ensures AgesOf(merged) == Extended(AgesOf(low), AgesOf(a), AgesOf(b))
  {
    merged := low;
    var i := 0;
    while i < |b|
      invariant 0 <= i <= |b|
      invariant DistinctLines(merged)
      invariant AgesOf(merged) == Extended(AgesOf(low), AgesOf(a), AgesOf(b[..i]))
    {
      FindIs(a, b[i].line);
      AgesOfPrefix(b, i);
      ExtendedSnoc(AgesOf(low), AgesOf(a), AgesOf(b[..i]), b[i]);
      if Find(a, b[i].line) == None {
        AgesOfAppend(merged, b[i]);
        merged := merged + [b[i]];
      }
      i := i + 1;
    }
    assert b[..|b|] == b;
  }

  method LowerEntries(a: seq<Entry>, b: seq<Entry>) returns (merged: seq<Entry>)
    requires DistinctLines(a) && DistinctLines(b)
    ensures DistinctLines(merged)
    ensures AgesOf(merged) == Lowered(AgesOf(a), AgesOf(a), AgesOf(b))
  {
    merged := a;
    var i := 0;
    while i < |merged|
      invariant 0 <= i <= |merged| == |a|
      invariant DistinctLines(merged) && merged[i..] == a[i..]
      invariant AgesOf(merged) == Lowered(AgesOf(a), AgesOf(a[..i]), AgesOf(b))
    {
      assert merged[i] == merged[i..][0] == a[i];
      assert merged[i + 1..] == merged[i..][1..] == a[i..][1..] == a[i + 1..];
      FindIs(b, merged[i].line);
      AgesOfPrefix(a, i);
      AgesOfAt(a, i);
      LoweredSnoc(AgesOf(a), AgesOf(a[..i]), a[i], AgesOf(b));
      match Find(b, merged[i].line) {
        case Some(age) =>
          AgesOfSet(merged, i, Min(merged[i].age, age));
          merged := merged[i := merged[i].(age := Min(merged[i].age, age))];
        case None =>
      }
      i := i + 1;
    }
    assert a[..|a|] == a;
  }

  // ---------------------------------------------------------------- policies

  datatype Policy = UnknownPolicy | LRUPolicy(ways: nat) | FIFOPolicy(ways: nat)
  {
    predicate Valid() { UnknownPolicy? || ways >= 1 }

    predicate Supports(kind: Kind) { UnknownPolicy? ==> kind == Must }

    /** The state is one this policy maintains. */
    ghost predicate Owns(s: CacheSetState)
      reads s
    {
      s.Valid() && (if UnknownPolicy? then s.lines == [] else s.line == None)
    }

    function Contains(s: CacheSetState, line: Line): (r: bool)
      requires Owns(s)
      reads s
      ensures r <==> line in s.View()
    {
      FindIs(s.lines, line);
      if UnknownPolicy? then s.line == Some(line) else Find(s.lines, line).Some?
    }

    function Equals(a: CacheSetState, b: CacheSetState): (r: bool)
      requires Owns(a) && Owns(b)
      reads a, b
      ensures r <==> a.View() == b.View()
    {
      SameEntriesSound(a.lines, b.lines);
      assert a.line.Some? ==> a.line.value in a.View();
      assert b.line.Some? ==> b.line.value in b.View();
      if UnknownPolicy? then a.line == b.line else SameEntries(a.lines, b.lines)
    }

    /** What an access does to the value of a set. */
    ghost function Transfer(m: Ages, line: Line): Ages {
      match this
      case UnknownPolicy => map[line := 0]
      case LRUPolicy(w) => LruUpdate(w, m, line)
      case FIFOPolicy(w) => FifoUpdate(w, m, line)
    }

    method Update(s: CacheSetState, line: Line)
      requires Owns(s)
      modifies s
      ensures Owns(s) && s.View() == Transfer(old(s.View()), line)
    {
      match this {
        case UnknownPolicy => s.line := Some(line);
        case LRUPolicy(w) => s.LruUpdate(w, line);
        case FIFOPolicy(w) => s.FifoUpdate(w, line);
      }
    }

    method JoinInto(s: CacheSetState, other: CacheSetState, kind: Kind) returns (changed: bool)
      requires Owns(s) && Owns(other) && Supports(kind)
      modifies s
      ensures Owns(s) && s.View() == Join(kind, old(s.View()), old(other.View()))
      ensures changed <==> s.View() != old(s.View())
    {
      if UnknownPolicy? {
        var merged := if s.line.Some? && other.line.Some? && s.line == other.line then s.line else None;
        assert merged == None && s.line.Some? ==> s.line.value in s.View();
        if merged == s.line {
          return false;
        }
        s.line := merged;
        return true;
      }
      changed := s.AgeJoin(other, kind);
    }
  }
}

/** The fixed chapter table, the per-chapter filter that builds the sidebar,
    and the chapter lookup behind the breadcrumb. */
module Chapters {
  import opened Wrappers
  import opened Records

  /** A chapter: a title, an inclusive id range `[lo, hi]` and a key. */
  datatype Chapter = Chapter(title: string, lo: int, hi: int, key: string)

  /** The four chapters the page defines, in display order. */
  const Table: seq<Chapter> := [
    Chapter("Core Foundations", 1, 26, "ch1"),
    Chapter("Collections & Generics", 27, 51, "ch2"),
    Chapter("Functional Java", 52, 76, "ch3"),
    Chapter("Concurrency", 77, 101, "ch4")
  ]

  /** The range test used both by the sidebar filter and by the breadcrumb:
      inclusive at both ends. */
  predicate Contains(c: Chapter, id: int) {
    c.lo <= id && id <= c.hi
  }

  /** The records listed under chapter `c`: those whose id is in its range,
      in dataset order. */
  function Bucket(data: seq<Record>, c: Chapter): (r: seq<Record>)
    ensures |r| <= |data|
    ensures forall x :: x in r <==> x in data && Contains(c, x.id)
  {
    if data == [] then []
    else (if Contains(c, data[0].id) then [data[0]] else []) + Bucket(data[1..], c)
  }

  /** Filtering keeps dataset order: the bucket of a concatenation is the
      concatenation of the buckets. */
  lemma {:induction false} BucketAppend(a: seq<Record>, b: seq<Record>, c: Chapter)
    ensures Bucket(a + b, c) == Bucket(a, c) + Bucket(b, c)
  {
    if a == [] {
      assert a + b == b;
    } else {
      assert (a + b)[0] == a[0];
      assert (a + b)[1..] == a[1..] + b;
      BucketAppend(a[1..], b, c);
    }
  }

  /** A chapter lists every record of an id in its range, and none of any other id. */
  lemma {:induction false} BucketOcc(data: seq<Record>, c: Chapter, id: int)
    ensures Occ(Bucket(data, c), id) == if Contains(c, id) then Occ(data, id) else 0
  {
    if data != [] {
      var head := if Contains(c, data[0].id) then [data[0]] else [];
      OccAppend(head, Bucket(data[1..], c), id);
      BucketOcc(data[1..], c, id);
    }
  }

  /** One sidebar section: the chapter's 1-based number, its title and its entries. */
  datatype Group = Group(number: nat, title: string, entries: seq<Record>)

  /** The sidebar: one group per chapter, in table order. */
  function Sidebar(chs: seq<Chapter>, data: seq<Record>): (r: seq<Group>)
    ensures |r| == |chs|
    ensures forall k :: 0 <= k < |r| ==> r[k].number == k + 1 && r[k].title == chs[k].title
    ensures forall k, x :: 0 <= k < |r| ==> (x in r[k].entries <==> x in data && Contains(chs[k], x.id))
    ensures forall k :: 0 <= k < |r| ==> r[k].entries == Bucket(data, chs[k])
  {
    seq(|chs|, k requires 0 <= k < |chs| => Group(k + 1, chs[k].title, Bucket(data, chs[k])))
  }

  /** The entries of all groups in the order their buttons appear. */
  function Flatten(gs: seq<Group>): (r: seq<Record>)
  {
    if gs == [] then [] else gs[0].entries + Flatten(gs[1..])
  }

  /** How many chapters' ranges contain `id`. */
  function Hits(chs: seq<Chapter>, id: int): (n: nat)
    ensures n <= |chs|
    ensures n == 0 <==> forall k :: 0 <= k < |chs| ==> !Contains(chs[k], id)
  {
    if chs == [] then 0
    else (if Contains(chs[0], id) then 1 else 0) + Hits(chs[1..], id)
  }

  /** Each chapter filters independently: a record shows up in the sidebar once
      per chapter whose range holds its id (never, if none does). */
  lemma SidebarOcc(chs: seq<Chapter>, data: seq<Record>, id: int)
    ensures Occ(Flatten(Sidebar(chs, data)), id) == Hits(chs, id) * Occ(data, id)
  {
    GroupsOcc(Sidebar(chs, data), chs, data, id);
  }

  lemma {:induction false} GroupsOcc(gs: seq<Group>, chs: seq<Chapter>, data: seq<Record>, id: int)
    requires |gs| == |chs|
    requires forall k :: 0 <= k < |gs| ==> gs[k].entries == Bucket(data, chs[k])
    ensures Occ(Flatten(gs), id) == Hits(chs, id) * Occ(data, id)
  {
    if gs != [] {
      var n := Occ(data, id);
      var h := if Contains(chs[0], id) then 1 else 0;
      OccAppend(gs[0].entries, Flatten(gs[1..]), id);
      BucketOcc(data, chs[0], id);
      assert Occ(gs[0].entries, id) == h * n;
      GroupsOcc(gs[1..], chs[1..], data, id);
      assert Occ(Flatten(gs[1..]), id) == Hits(chs[1..], id) * n;
      assert h * n + Hits(chs[1..], id) * n == (h + Hits(chs[1..], id)) * n;
    }
  }

  /** Every sidebar entry is a loaded record whose id some chapter's range holds. */
  lemma SidebarEntriesLoaded(chs: seq<Chapter>, data: seq<Record>, x: Record)
    requires x in Flatten(Sidebar(chs, data))
    ensures x in data && Hits(chs, x.id) > 0
  {
    GroupsIn(Sidebar(chs, data), chs, data, x);
  }

  lemma {:induction false} GroupsIn(gs: seq<Group>, chs: seq<Chapter>, data: seq<Record>, x: Record)
    requires |gs| == |chs|
    requires forall k :: 0 <= k < |gs| ==> gs[k].entries == Bucket(data, chs[k])
    requires x in Flatten(gs)
    ensures x in data && Hits(chs, x.id) > 0
  {
    if x !in gs[0].entries {
      GroupsIn(gs[1..], chs[1..], data, x);
    }
  }

  /** The position of the first chapter whose range holds `id`, or -1. */
  function FirstContaining(chs: seq<Chapter>, id: int): (r: int)
    ensures -1 <= r < |chs|
    ensures r == -1 <==> forall k :: 0 <= k < |chs| ==> !Contains(chs[k], id)
    ensures r >= 0 ==> Contains(chs[r], id) && forall j :: 0 <= j < r ==> !Contains(chs[j], id)
  {
    if chs == [] then -1
    else if Contains(chs[0], id) then 0
    else
      var k := FirstContaining(chs[1..], id);
      assert forall j :: 0 < j < |chs| ==> chs[j] == chs[1..][j - 1];
      if k == -1 then -1 else k + 1
  }

  /** `chapters.find(c => id >= c.range[0] && id <= c.range[1])`. */
  function FindChapter(chs: seq<Chapter>, id: int): (r: Option<Chapter>)
    ensures r.Some? ==> r.value in chs && Contains(r.value, id)
    ensures r.None? <==> forall k :: 0 <= k < |chs| ==> !Contains(chs[k], id)
  {
    if chs == [] then None
    else if Contains(chs[0], id) then Some(chs[0])
    else
      assert forall j :: 0 < j < |chs| ==> chs[j] == chs[1..][j - 1];
      FindChapter(chs[1..], id)
  }

  /** `chapters.indexOf(x)`: the first position holding `x`; `undefined`
      (`None`) is never in the table, so it gives -1. */
  function IndexOf(chs: seq<Chapter>, x: Option<Chapter>): (r: int)
    ensures -1 <= r < |chs|
    ensures r >= 0 ==> x == Some(chs[r])
    ensures r == -1 <==> x.None? || x.value !in chs
    ensures r >= 0 ==> forall j :: 0 <= j < r ==> chs[j] != x.value
  {
    if chs == [] || x.None? then -1
    else if chs[0] == x.value then 0
    else
      var k := IndexOf(chs[1..], x);
      if k == -1 then -1 else k + 1
  }

  /** Looking up the found chapter's position gives the first containing
      chapter's position, also when no chapter contains the id. */
  lemma {:induction false} IndexOfFind(chs: seq<Chapter>, id: int)
    ensures IndexOf(chs, FindChapter(chs, id)) == FirstContaining(chs, id)
  {
    if chs != [] && !Contains(chs[0], id) {
      IndexOfFind(chs[1..], id);
    }
  }

  /** The chapter number shown in the breadcrumb:
      `chapters.indexOf(currentChapter) + 1`. */
  function ChapterNumber(chs: seq<Chapter>, id: int): (r: int)
    ensures 0 <= r <= |chs|
    ensures r == 0 <==> forall k :: 0 <= k < |chs| ==> !Contains(chs[k], id)
    ensures r > 0 ==> Contains(chs[r - 1], id)
    ensures r > 0 ==> forall j :: 0 <= j < r - 1 ==> !Contains(chs[j], id)
  {
    IndexOfFind(chs, id);
    IndexOf(chs, FindChapter(chs, id)) + 1
  }

  /** The fixed table partitions 1..101: every id in it lies in exactly one
      chapter, every id outside it in none. */
  lemma TableHits(id: int)
    ensures Hits(Table, id) == if 1 <= id <= 101 then 1 else 0
  {
    var t1, t2, t3 := Table[1..], Table[2..], Table[3..];
    assert t1[1..] == t2 && t2[1..] == t3 && t3[1..] == [];
    assert Hits(t3, id) == if 77 <= id <= 101 then 1 else 0;
    assert Hits(t2, id) == if 52 <= id <= 101 then 1 else 0;
    assert Hits(t1, id) == if 27 <= id <= 101 then 1 else 0;
  }

  /** The breadcrumb number for each id under the fixed table. */
  lemma TableChapterNumber(id: int)
    ensures ChapterNumber(Table, id) ==
      if 1 <= id <= 26 then 1
      else if 27 <= id <= 51 then 2
      else if 52 <= id <= 76 then 3
      else if 77 <= id <= 101 then 4
      else 0
  {
    var n := ChapterNumber(Table, id);
    if n > 0 {
      assert Contains(Table[n - 1], id);
      assert forall j :: 0 <= j < n - 1 ==> !Contains(Table[j], id);
    } else {
      assert !Contains(Table[0], id) && !Contains(Table[1], id);
      assert !Contains(Table[2], id) && !Contains(Table[3], id);
    }
  }

  /** Both ends of a range are inside it: 26 is only in the first chapter and
      27 only in the second. */
  lemma TableBoundaries()
    ensures forall k :: 0 <= k < |Table| ==> (Contains(Table[k], 26) <==> k == 0)
    ensures forall k :: 0 <= k < |Table| ==> (Contains(Table[k], 27) <==> k == 1)
    ensures ChapterNumber(Table, 26) == 1 && ChapterNumber(Table, 27) == 2
  {
    TableChapterNumber(26);
    TableChapterNumber(27);
  }

  /** With unique ids in 1..101, every record is listed exactly once in the
      sidebar built from the fixed table. */
  lemma TableListsOnce(data: seq<Record>, id: int)
    requires UniqueIds(data)
    ensures Occ(Flatten(Sidebar(Table, data)), id) == if 1 <= id <= 101 && HasId(data, id) then 1 else 0
  {
    SidebarOcc(Table, data, id);
    TableHits(id);
    UniqueOcc(data, id);
  }
}

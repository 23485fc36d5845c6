/** Cursor paging of one folder: listFiles, listFilesFromIndex, cursorStart and compareEntryCursor of
    internal/server/files.go, List's order in internal/files/service.go, and the keyset query of
    ListFileIndexFolder in internal/store/index.go. Names are ASCII. */
module FolderPaging {
  import opened Strings

  const MAX_LIST_LIMIT := 2000

  datatype Entry = Entry(isDir: bool, name: string, path: string)

  /** What next_cursor carries: type, lower-cased name, path. */
  datatype Cursor = Cursor(isDir: bool, name: string, path: string)

  function CursorOf(e: Entry): Cursor { Cursor(e.isDir, Lower(e.name), e.path) }

  // ---------------------------------------------------------------- the order

  /** ORDER BY type, name COLLATE NOCASE, path COLLATE NOCASE; 'dir' sorts before 'file'. */
  predicate KeyLess(d1: bool, n1: string, p1: string, d2: bool, n2: string, p2: string) {
    if d1 != d2 then d1
    else if Lower(n1) != Lower(n2) then Less(Lower(n1), Lower(n2))
    else Less(Lower(p1), Lower(p2))
  }

  predicate Before(a: Entry, b: Entry) { KeyLess(a.isDir, a.name, a.path, b.isDir, b.name, b.path) }

  /** (type, name, path) > (?, ?, ?) as the keyset WHERE clause reads it. */
  predicate AfterCursor(e: Entry, c: Cursor) { KeyLess(c.isDir, c.name, c.path, e.isDir, e.name, e.path) }

  /** Siblings that differ only in letter case share a key. */
  predicate SameKey(a: Entry, b: Entry) {
    a.isDir == b.isDir && Lower(a.name) == Lower(b.name) && Lower(a.path) == Lower(b.path)
  }

  lemma BeforeIrreflexive(a: Entry)
    ensures !Before(a, a)
  {
    LessIrreflexive(Lower(a.path));
  }

  lemma BeforeTransitive(a: Entry, b: Entry, c: Entry)
    requires Before(a, b) && Before(b, c)
    ensures Before(a, c)
  {
    if Lower(a.name) != Lower(b.name) && Lower(b.name) != Lower(c.name) && a.isDir == b.isDir == c.isDir {
      LessTransitive(Lower(a.name), Lower(b.name), Lower(c.name));
      LessIrreflexive(Lower(a.name));
    }
    var alike := Lower(a.name) == Lower(b.name) == Lower(c.name) && a.isDir == b.isDir == c.isDir;
    if Lower(a.path) != Lower(b.path) && alike {
      LessTransitive(Lower(a.path), Lower(b.path), Lower(c.path));
    }
    if Less(Lower(a.path), Lower(b.path)) { LessIrreflexive(Lower(a.path)); }
  }

  lemma BeforeTotal(a: Entry, b: Entry)
    ensures SameKey(a, b) || Before(a, b) || Before(b, a)
  {
    LessTotal(Lower(a.name), Lower(b.name));
    LessTotal(Lower(a.path), Lower(b.path));
  }

  /** The cursor of an entry stands exactly where the entry does. */
  lemma CursorIsEntry(e: Entry, x: Entry)
    ensures AfterCursor(x, CursorOf(e)) <==> Before(e, x)
  {
    LowerIdempotent(e.name);
  }

  predicate Sorted(s: seq<Entry>) {
    forall i, j :: 0 <= i < j < |s| ==> Before(s[i], s[j])
  }

  /** No two rows of the folder are equal ignoring case. */
  predicate DistinctKeys(rows: seq<Entry>) {
    forall i, j :: 0 <= i < j < |rows| ==> !SameKey(rows[i], rows[j])
  }

  function Insert(e: Entry, s: seq<Entry>): seq<Entry> {
    if s == [] then [e]
    else if Before(e, s[0]) then [e] + s
    else [s[0]] + Insert(e, s[1..])
  }

  /** The rows in listing order. */
  function Sort(rows: seq<Entry>): seq<Entry> {
    if rows == [] then [] else Insert(rows[0], Sort(rows[1..]))
  }

  lemma {:induction false} InsertSorted(e: Entry, s: seq<Entry>)
    requires Sorted(s) && forall i :: 0 <= i < |s| ==> !SameKey(e, s[i])
    ensures Sorted(Insert(e, s))
    ensures |Insert(e, s)| == |s| + 1
    ensures forall x :: x in Insert(e, s) <==> x == e || x in s
  {
    if s != [] {
      if Before(e, s[0]) {
        forall i | 0 <= i < |s| ensures Before(e, s[i]) {
          if i > 0 { BeforeTransitive(e, s[0], s[i]); }
        }
      } else {
        BeforeTotal(e, s[0]);
        InsertSorted(e, s[1..]);
        var t := Insert(e, s[1..]);
        forall i | 0 <= i < |t| ensures Before(s[0], t[i]) {
          assert t[i] == e || t[i] in s[1..];
        }
      }
    }
  }

  lemma {:induction false} SortSorts(rows: seq<Entry>)
    requires DistinctKeys(rows)
    ensures Sorted(Sort(rows)) && |Sort(rows)| == |rows|
    ensures forall x :: x in Sort(rows) <==> x in rows
  {
    if rows != [] {
      SortSorts(rows[1..]);
      forall i | 0 <= i < |Sort(rows[1..])| ensures !SameKey(rows[0], Sort(rows[1..])[i]) {
        assert Sort(rows[1..])[i] in rows[1..];
      }
      InsertSorted(rows[0], Sort(rows[1..]));
    }
  }

  /** A strictly ordered listing is determined by its entries, whatever algorithm produced it. */
  lemma {:induction false} SortedUnique(a: seq<Entry>, b: seq<Entry>)
    requires Sorted(a) && Sorted(b) && forall x :: x in a <==> x in b
    ensures a == b
  {
    if b != [] { assert b[0] in b; }
    if a != [] {
      assert a[0] in a;
      FirstIsLeast(b, a[0]);
      assert b[0] in a;
      FirstIsLeast(a, b[0]);
      if a[0] != b[0] {
        BeforeTransitive(a[0], b[0], a[0]);
        BeforeIrreflexive(a[0]);
      }
      TailDropsFirst(a);
      TailDropsFirst(b);
      SortedUnique(a[1..], b[1..]);
    }
  }

  lemma FirstIsLeast(s: seq<Entry>, x: Entry)
    requires Sorted(s) && x in s
    ensures s[0] == x || Before(s[0], x)
  {}

  lemma TailDropsFirst(s: seq<Entry>)
    requires Sorted(s) && s != []
    ensures forall x :: x in s[1..] <==> x in s && x != s[0]
  {
    BeforeIrreflexive(s[0]);
    assert s == [s[0]] + s[1..];
    assert forall i :: 0 <= i < |s[1..]| ==> s[1..][i] == s[i+1];
  }

  // ---------------------------------------------------------------- the order a user sees

  /** a may stand before b: folders before files, then by lower-cased name, then by lower-cased path. */
  predicate MayPrecede(a: Entry, b: Entry) {
    && (b.isDir ==> a.isDir)
    && (a.isDir == b.isDir ==> !Less(Lower(b.name), Lower(a.name)))
    && (a.isDir == b.isDir && Lower(a.name) == Lower(b.name) ==> !Less(Lower(b.path), Lower(a.path)))
  }

  predicate InListingOrder(s: seq<Entry>) {
    forall i, j :: 0 <= i < j < |s| ==> MayPrecede(s[i], s[j])
  }

  lemma LessAsymmetric(a: string, b: string)
    requires Less(a, b)
    ensures !Less(b, a) && a != b
  {
    LessIrreflexive(a);
    if Less(b, a) { LessTransitive(a, b, a); }
  }

  /** The order of the code is that one, both ways. */
  lemma PrecedesIff(a: Entry, b: Entry)
    ensures MayPrecede(a, b) <==> !Before(b, a)
  {
    LessTotal(Lower(a.name), Lower(b.name));
    LessTotal(Lower(a.path), Lower(b.path));
    if Less(Lower(a.name), Lower(b.name)) { LessAsymmetric(Lower(a.name), Lower(b.name)); }
    if Less(Lower(b.name), Lower(a.name)) { LessAsymmetric(Lower(b.name), Lower(a.name)); }
    if Less(Lower(a.path), Lower(b.path)) { LessAsymmetric(Lower(a.path), Lower(b.path)); }
    if Less(Lower(b.path), Lower(a.path)) { LessAsymmetric(Lower(b.path), Lower(a.path)); }
  }

  lemma PrecedeThenBefore(a: Entry, b: Entry, c: Entry)
    requires MayPrecede(a, b) && Before(b, c)
    ensures Before(a, c) && MayPrecede(a, c)
  {
    PrecedesIff(a, b);
    BeforeTotal(a, b);
    if Before(a, b) { BeforeTransitive(a, b, c); }
    PrecedesIff(a, c);
    if Before(c, a) { BeforeTransitive(a, c, a); BeforeIrreflexive(a); }
  }

  lemma PrecedesTransitive(a: Entry, b: Entry, c: Entry)
    requires MayPrecede(a, b) && MayPrecede(b, c)
    ensures MayPrecede(a, c)
  {
    PrecedesIff(b, c);
    BeforeTotal(b, c);
    if Before(b, c) {
      PrecedeThenBefore(a, b, c);
    } else {
      assert SameKey(b, c);
    }
  }

  lemma {:induction false} InsertInOrder(e: Entry, s: seq<Entry>)
    requires InListingOrder(s)
    ensures InListingOrder(Insert(e, s))
  {
    if s != [] {
      if Before(e, s[0]) {
        BeforeMayPrecede(e, s[0]);
        forall i | 0 < i < |s| ensures MayPrecede(e, s[i]) { PrecedesTransitive(e, s[0], s[i]); }
      } else {
        PrecedesIff(s[0], e);
        InsertInOrder(e, s[1..]);
        InsertMembers(e, s[1..]);
        var t := Insert(e, s[1..]);
        forall i | 0 <= i < |t| ensures MayPrecede(s[0], t[i]) { assert t[i] == e || t[i] in s[1..]; }
      }
    }
  }

  lemma BeforeMayPrecede(a: Entry, b: Entry)
    requires Before(a, b)
    ensures MayPrecede(a, b)
  {
    PrecedesIff(a, b);
    if Before(b, a) { BeforeTransitive(a, b, a); BeforeIrreflexive(a); }
  }

  /** Any folder, twins or not, is listed in that order. */
  lemma {:induction false} SortInListingOrder(rows: seq<Entry>)
    ensures InListingOrder(Sort(rows))
  {
    if rows != [] {
      SortInListingOrder(rows[1..]);
      InsertInOrder(rows[0], Sort(rows[1..]));
    }
  }

  // ---------------------------------------------------------------- the SQL path

  function After(rows: seq<Entry>, cursor: Option<Cursor>): seq<Entry> {
    if rows == [] then []
    else (if cursor.None? || AfterCursor(rows[0], cursor.value) then [rows[0]] else []) + After(rows[1..], cursor)
  }

  lemma {:induction false} AfterMembers(rows: seq<Entry>, cursor: Option<Cursor>)
    ensures forall x :: x in After(rows, cursor) <==> x in rows && (cursor.None? || AfterCursor(x, cursor.value))
  {
    if rows != [] {
      AfterMembers(rows[1..], cursor);
    }
  }

  lemma {:induction false} AfterKeeps(rows: seq<Entry>, cursor: Option<Cursor>)
    requires DistinctKeys(rows)
    ensures DistinctKeys(After(rows, cursor)) && |After(rows, cursor)| <= |rows|
    ensures forall x :: x in After(rows, cursor) <==> x in rows && (cursor.None? || AfterCursor(x, cursor.value))
  {
    if rows != [] {
      AfterKeeps(rows[1..], cursor);
      forall i | 0 <= i < |After(rows[1..], cursor)| ensures !SameKey(rows[0], After(rows[1..], cursor)[i]) {
        assert After(rows[1..], cursor)[i] in rows[1..];
      }
    }
  }

  /** The LIMIT that ListFileIndexFolder really applies. */
  function StoreLimit(limit: int): nat {
    if limit <= 0 then 500 else if limit > MAX_LIST_LIMIT then MAX_LIST_LIMIT else limit
  }

  /** The store answers at most 2000 rows, and 500 when it is not told how many. */
  lemma StoreLimitIs(limit: int)
    ensures StoreLimit(limit) <= 2000 && (0 < limit <= 2000 ==> StoreLimit(limit) == limit)
    ensures limit > 2000 ==> StoreLimit(limit) == 2000
    ensures limit <= 0 ==> StoreLimit(limit) == 500
  {}

  function Take(s: seq<Entry>, n: nat): seq<Entry> { if n < |s| then s[..n] else s }

  function Drop(s: seq<Entry>, n: nat): seq<Entry> { if n < |s| then s[n..] else [] }

  /** Rows of one folder: keyset filter, order, OFFSET without a cursor, LIMIT. */
  function ListFileIndexFolder(rows: seq<Entry>, cursor: Option<Cursor>, offset: nat, limit: int): seq<Entry> {
    var ordered := Sort(After(rows, cursor));
    Take(if cursor.None? then Drop(ordered, offset) else ordered, StoreLimit(limit))
  }

  datatype Page = Page(entries: seq<Entry>, hasMore: bool, next: Option<Cursor>)

  /** listFilesFromIndex: ask for one row more than the page shows. */
  function IndexPage(rows: seq<Entry>, cursor: Option<Cursor>, offset: nat, limit: nat): Page
    requires limit > 0
  {
    var got := ListFileIndexFolder(rows, cursor, offset, limit + 1);
    var hasMore := |got| > limit;
    var entries := if hasMore then got[..limit] else got;
    Page(entries, hasMore, if hasMore && entries != [] then Some(CursorOf(entries[|entries|-1])) else None)
  }

  /** has_more is right for every folder exactly below the store's cap: at limit 2000 it reads false
      although rows remain as soon as more than 2000 are left. */
  lemma HasMoreRightIff(rows: seq<Entry>, cursor: Option<Cursor>, limit: nat)
    requires DistinctKeys(rows) && 0 < limit <= MAX_LIST_LIMIT
    ensures (IndexPage(rows, cursor, 0, limit).hasMore <==> |After(rows, cursor)| > limit)
       <==> limit < MAX_LIST_LIMIT || |After(rows, cursor)| <= MAX_LIST_LIMIT
  {
    AfterKeeps(rows, cursor);
    SortSorts(After(rows, cursor));
  }

  /** The files "0", "1", ... of the root folder. */
  function Numbered(n: nat): seq<Entry> { seq(n, i requires 0 <= i => Entry(false, Itoa(i), "/" + Itoa(i))) }

  /** In a folder of 2001 files a request with limit 2000 says that there are no more. */
  lemma HasMoreLostAt2001()
    ensures DistinctKeys(Numbered(2001)) && |After(Numbered(2001), None)| == 2001
    ensures !IndexPage(Numbered(2001), None, 0, 2000).hasMore
  {
    var rows := Numbered(2001);
    forall i, j | 0 <= i < j < |rows| ensures !SameKey(rows[i], rows[j]) {
      LowerDigits(i);
      LowerDigits(j);
      ValueOfItoa(i);
      ValueOfItoa(j);
    }
    AllAfterNone(rows);
    HasMoreRightIff(rows, None, 2000);
  }

  lemma LowerDigits(n: nat)
    ensures Lower(Itoa(n)) == Itoa(n)
  {
    forall i | 0 <= i < |Itoa(n)| ensures Lower(Itoa(n))[i] == Itoa(n)[i] { assert Itoa(n)[i] in Itoa(n); }
  }

  lemma {:induction false} AllAfterNone(rows: seq<Entry>)
    ensures After(rows, None) == rows
  {
    if rows != [] {
      AllAfterNone(rows[1..]);
    }
  }

  /** The page cut from an ordered rest of the folder. */
  function PageOf(rest: seq<Entry>, limit: nat): Page
    requires limit > 0
  {
    if |rest| > limit then Page(rest[..limit], true, Some(CursorOf(rest[limit-1]))) else Page(rest, false, None)
  }

  /** Below the cap, the index page is cut from what follows the cursor (or the offset). */
  lemma IndexPageIsCut(rows: seq<Entry>, cursor: Option<Cursor>, offset: nat, limit: nat)
    requires 0 < limit < MAX_LIST_LIMIT
    ensures var ordered := Sort(After(rows, cursor));
            IndexPage(rows, cursor, offset, limit) ==
              PageOf(if cursor.None? then Drop(ordered, offset) else ordered, limit)
  {
    var ordered := Sort(After(rows, cursor));
    var rest := if cursor.None? then Drop(ordered, offset) else ordered;
    assert StoreLimit(limit + 1) == limit + 1;
    if |rest| > limit {
      assert Take(rest, limit + 1)[..limit] == rest[..limit];
    }
  }

  /** A page cut from an ordered rest: everything left out lies after its last entry, nothing shown does. */
  lemma CutIsPrefix(rest: seq<Entry>, limit: nat)
    requires Sorted(rest) && limit > 0
    ensures var p := PageOf(rest, limit);
            && Sorted(p.entries) && (forall x :: x in p.entries ==> x in rest)
            && (p.hasMore <==> p.next.Some?)
            && (p.hasMore ==> |p.entries| == limit && p.next == Some(CursorOf(p.entries[limit-1])))
            && (!p.hasMore ==> p.entries == rest)
            && (p.hasMore ==> forall x :: x in rest && x !in p.entries ==> AfterCursor(x, p.next.value))
  {
    var p := PageOf(rest, limit);
    if p.hasMore {
      var last := rest[limit-1];
      forall j | 0 <= j < limit ensures rest[j] in p.entries { assert p.entries[j] == rest[j]; }
      forall x | x in rest && x !in p.entries ensures AfterCursor(x, p.next.value) {
        var i :| 0 <= i < |rest| && rest[i] == x;
        CursorIsEntry(last, x);
      }
    }
  }

  /** One page: in order, after the cursor, from the folder, and followed by everything it left out. */
  lemma PageIsNextSlice(rows: seq<Entry>, cursor: Option<Cursor>, limit: nat)
    requires DistinctKeys(rows) && 0 < limit < MAX_LIST_LIMIT
    ensures var p := IndexPage(rows, cursor, 0, limit);
            && Sorted(p.entries)
            && (forall x :: x in p.entries ==> x in rows && (cursor.None? || AfterCursor(x, cursor.value)))
            && (p.hasMore <==> p.next.Some?)
            && (p.hasMore ==> |p.entries| == limit && p.next == Some(CursorOf(p.entries[limit-1])))
            && (forall x :: x in rows && (cursor.None? || AfterCursor(x, cursor.value)) && x !in p.entries ==>
                  p.hasMore && AfterCursor(x, p.next.value))
  {
    AfterKeeps(rows, cursor);
    SortSorts(After(rows, cursor));
    var ordered := Sort(After(rows, cursor));
    assert Drop(ordered, 0) == ordered;
    IndexPageIsCut(rows, cursor, 0, limit);
    CutIsPrefix(ordered, limit);
  }

  // ---------------------------------------------------------------- a client paging through a changing folder

  /** Follows next_cursor over one folder state and limit per request, until has_more is false. */
  function Pages(folders: seq<seq<Entry>>, limits: seq<nat>, cursor: Option<Cursor>): (seq<Entry>, bool)
    requires |folders| == |limits| && forall i :: 0 <= i < |limits| ==> 0 < limits[i]
  {
    if folders == [] then ([], false)
    else
      var p := IndexPage(folders[0], cursor, 0, limits[0]);
      if !p.hasMore then (p.entries, true)
      else
        var (rest, done) := Pages(folders[1..], limits[1..], p.next);
        (p.entries + rest, done)
  }

  predicate GoodLimits(limits: seq<nat>) { forall i :: 0 <= i < |limits| ==> 0 < limits[i] < MAX_LIST_LIMIT }

  predicate GoodFolders(folders: seq<seq<Entry>>) { forall i :: 0 <= i < |folders| ==> DistinctKeys(folders[i]) }

  /** e was in the folder at every request. */
  predicate AlwaysThere(e: Entry, folders: seq<seq<Entry>>) {
    forall i :: 0 <= i < |folders| ==> e in folders[i]
  }

  predicate FromSome(x: Entry, folders: seq<seq<Entry>>) {
    exists i :: 0 <= i < |folders| && x in folders[i]
  }

  predicate Beyond(x: Entry, cursor: Option<Cursor>) { cursor.None? || AfterCursor(x, cursor.value) }

  /** What the client has collected from a cursor on. */
  ghost predicate CollectedOk(all: seq<Entry>, done: bool, folders: seq<seq<Entry>>, cursor: Option<Cursor>) {
    && Sorted(all)
    && (forall x :: x in all ==> Beyond(x, cursor) && FromSome(x, folders))
    && (done ==> forall e :: AlwaysThere(e, folders) && Beyond(e, cursor) ==> e in all)
  }

  /** A page followed by what the next cursor yields. */
  lemma PageThenRest(folders: seq<seq<Entry>>, cursor: Option<Cursor>, limit: nat, rest: seq<Entry>, done: bool)
    requires folders != [] && DistinctKeys(folders[0]) && 0 < limit < MAX_LIST_LIMIT
    requires var p := IndexPage(folders[0], cursor, 0, limit);
             p.hasMore && CollectedOk(rest, done, folders[1..], p.next)
    ensures CollectedOk(IndexPage(folders[0], cursor, 0, limit).entries + rest, done, folders, cursor)
  {
    PageIsNextSlice(folders[0], cursor, limit);
    var p := IndexPage(folders[0], cursor, 0, limit);
    var page := p.entries;
    var last := page[limit-1];
    assert last in page;
    forall j | 0 <= j < |rest| ensures Before(last, rest[j]) {
      assert rest[j] in rest;
      CursorIsEntry(last, rest[j]);
    }
    SortedJoin(page, rest);
    forall x | x in page + rest ensures Beyond(x, cursor) && FromSome(x, folders) {
      if x in page {
        assert x in folders[0];
      } else {
        CursorIsEntry(last, x);
        if cursor.Some? { CursorTransitive(cursor.value, last, x); }
        var i :| 0 <= i < |folders[1..]| && x in folders[1..][i];
        assert x in folders[i+1];
      }
    }
    forall e | done && AlwaysThere(e, folders) && Beyond(e, cursor) ensures e in page + rest {
      assert e in folders[0];
      assert AlwaysThere(e, folders[1..]);
    }
  }

  lemma SortedJoin(page: seq<Entry>, rest: seq<Entry>)
    requires Sorted(page) && Sorted(rest) && page != []
    requires forall j :: 0 <= j < |rest| ==> Before(page[|page|-1], rest[j])
    ensures Sorted(page + rest)
  {
    var s := page + rest;
    forall i, j | 0 <= i < j < |s| ensures Before(s[i], s[j]) {
      if i < |page| - 1 && j >= |page| {
        BeforeTransitive(page[i], page[|page|-1], rest[j - |page|]);
      }
    }
  }

  /** Whatever is inserted and deleted between requests: what the client collects is strictly
      increasing, so no key comes twice; and when it reaches the end it has every entry that was
      there throughout. */
  lemma {:induction false} PagingUnderChanges(folders: seq<seq<Entry>>, limits: seq<nat>, cursor: Option<Cursor>)
    requires |folders| == |limits| && GoodLimits(limits) && GoodFolders(folders)
    ensures var (all, done) := Pages(folders, limits, cursor);
            CollectedOk(all, done, folders, cursor)
    decreases |folders|
  {
    if folders != [] {
      var p := IndexPage(folders[0], cursor, 0, limits[0]);
      if p.hasMore {
        PagingUnderChanges(folders[1..], limits[1..], p.next);
        var (rest, done) := Pages(folders[1..], limits[1..], p.next);
        PageThenRest(folders, cursor, limits[0], rest, done);
      } else {
        PageIsNextSlice(folders[0], cursor, limits[0]);
        forall e | AlwaysThere(e, folders) && Beyond(e, cursor) ensures e in p.entries {
          assert e in folders[0];
        }
      }
    }
  }

  predicate OrderedBeyond(all: seq<Entry>, cursor: Option<Cursor>) {
    InListingOrder(all) && forall x :: x in all ==> Beyond(x, cursor)
  }

  lemma PageOrderedBeyond(rows: seq<Entry>, cursor: Option<Cursor>, limit: nat)
    requires 0 < limit < MAX_LIST_LIMIT
    ensures var p := IndexPage(rows, cursor, 0, limit);
            && OrderedBeyond(p.entries, cursor)
            && (p.hasMore ==> p.entries != [] && p.next == Some(CursorOf(p.entries[|p.entries|-1])))
  {
    PageInListingOrder(rows, cursor, 0, limit);
    PageMembers(rows, cursor, limit);
  }

  lemma {:induction false} PagesOrderedBeyond(folders: seq<seq<Entry>>, limits: seq<nat>, cursor: Option<Cursor>)
    requires |folders| == |limits| && GoodLimits(limits)
    ensures OrderedBeyond(Pages(folders, limits, cursor).0, cursor)
    decreases |folders|
  {
    if folders != [] {
      var p := IndexPage(folders[0], cursor, 0, limits[0]);
      PageOrderedBeyond(folders[0], cursor, limits[0]);
      if p.hasMore {
        PagesOrderedBeyond(folders[1..], limits[1..], p.next);
        JoinInOrder(p.entries, Pages(folders[1..], limits[1..], p.next).0, cursor);
      }
    }
  }

  /** Whatever changes between requests, and whatever the names, the pages show no file before a folder,
      and within folders and within files names ascend ignoring case, paths among equal names. */
  lemma PagesInListingOrder(folders: seq<seq<Entry>>, limits: seq<nat>, cursor: Option<Cursor>)
    requires |folders| == |limits| && GoodLimits(limits)
    ensures InListingOrder(Pages(folders, limits, cursor).0)
  {
    PagesOrderedBeyond(folders, limits, cursor);
  }

  lemma PageInListingOrder(rows: seq<Entry>, cursor: Option<Cursor>, offset: nat, limit: nat)
    requires limit > 0
    ensures InListingOrder(IndexPage(rows, cursor, offset, limit).entries)
  {
    SortInListingOrder(After(rows, cursor));
  }

  lemma JoinInOrder(page: seq<Entry>, rest: seq<Entry>, cursor: Option<Cursor>)
    requires page != [] && OrderedBeyond(page, cursor) && OrderedBeyond(rest, Some(CursorOf(page[|page|-1])))
    ensures OrderedBeyond(page + rest, cursor)
  {
    var last := page[|page|-1];
    assert last in page;
    forall j | 0 <= j < |rest| ensures Before(last, rest[j]) && Beyond(rest[j], cursor) {
      assert rest[j] in rest;
      CursorIsEntry(last, rest[j]);
      if cursor.Some? { CursorTransitive(cursor.value, last, rest[j]); }
    }
    forall i, j | 0 <= i < |page| && 0 <= j < |rest| ensures MayPrecede(page[i], rest[j]) {
      BeforeMayPrecede(last, rest[j]);
      if i < |page| - 1 { PrecedesTransitive(page[i], last, rest[j]); }
    }
  }

  /** The same, said of positions: an entry that is there throughout is collected exactly once. */
  lemma CollectedOnce(folders: seq<seq<Entry>>, limits: seq<nat>, e: Entry)
    requires |folders| == |limits| && GoodLimits(limits) && GoodFolders(folders)
    requires Pages(folders, limits, None).1 && AlwaysThere(e, folders)
    ensures var all := Pages(folders, limits, None).0;
            exists i :: 0 <= i < |all| && all[i] == e && forall j :: 0 <= j < |all| && SameKey(all[j], e) ==> j == i
  {
    PagingUnderChanges(folders, limits, None);
    var all := Pages(folders, limits, None).0;
    assert e in all;
    var i :| 0 <= i < |all| && all[i] == e;
    forall j | 0 <= j < |all| && SameKey(all[j], e) ensures j == i {
      LessIrreflexive(Lower(e.path));
    }
  }

  lemma CursorTransitive(c: Cursor, a: Entry, b: Entry)
    requires AfterCursor(a, c) && Before(a, b)
    ensures AfterCursor(b, c)
  {
    BeforeTransitive(Entry(c.isDir, c.name, c.path), a, b);
  }

  lemma {:induction false} InsertMembers(e: Entry, s: seq<Entry>)
    ensures |Insert(e, s)| == |s| + 1
    ensures forall x :: x in Insert(e, s) <==> x == e || x in s
  {
    if s != [] && !Before(e, s[0]) {
      InsertMembers(e, s[1..]);
    }
  }

  lemma {:induction false} SortMembers(rows: seq<Entry>)
    ensures |Sort(rows)| == |rows|
    ensures forall x :: x in Sort(rows) <==> x in rows
  {
    if rows != [] {
      SortMembers(rows[1..]);
      InsertMembers(rows[0], Sort(rows[1..]));
    }
  }

  /** Twins or not, a page shows entries of the folder that lie after the cursor, and its next cursor
      is its last entry's. */
  lemma PageMembers(rows: seq<Entry>, cursor: Option<Cursor>, limit: nat)
    requires 0 < limit < MAX_LIST_LIMIT
    ensures var p := IndexPage(rows, cursor, 0, limit);
            && (forall x :: x in p.entries ==> x in rows && Beyond(x, cursor))
            && |p.entries| <= limit
            && (p.hasMore ==> |p.entries| == limit && p.next == Some(CursorOf(p.entries[limit-1])))
  {
    var ordered := Sort(After(rows, cursor));
    AfterMembers(rows, cursor);
    SortMembers(After(rows, cursor));
    assert Drop(ordered, 0) == ordered;
    IndexPageIsCut(rows, cursor, 0, limit);
    assert forall x :: x in PageOf(ordered, limit).entries ==> x in ordered;
  }

  /** A folder that does not change is paged completely in at most one request per entry plus one. */
  lemma {:induction false} StaticPagingEnds(rows: seq<Entry>, folders: seq<seq<Entry>>, limits: seq<nat>,
                                            cursor: Option<Cursor>)
    requires |folders| == |limits| && GoodLimits(limits)
    requires forall i :: 0 <= i < |folders| ==> folders[i] == rows
    requires |folders| > |After(rows, cursor)|
    ensures Pages(folders, limits, cursor).1
    decreases |folders|
  {
    var p := IndexPage(rows, cursor, 0, limits[0]);
    PageMembers(rows, cursor, limits[0]);
    if p.hasMore {
      var last := p.entries[|p.entries|-1];
      assert last in p.entries;
      FewerAfter(rows, cursor, last);
      StaticPagingEnds(rows, folders[1..], limits[1..], p.next);
    }
  }

  lemma {:induction false} FewerAfter(rows: seq<Entry>, cursor: Option<Cursor>, last: Entry)
    requires cursor.None? || AfterCursor(last, cursor.value)
    ensures |After(rows, Some(CursorOf(last)))| <= |After(rows, cursor)|
    ensures last in rows ==> |After(rows, Some(CursorOf(last)))| < |After(rows, cursor)|
  {
    if rows != [] {
      FewerAfter(rows[1..], cursor, last);
      var e := rows[0];
      CursorIsEntry(last, e);
      if Before(last, e) && cursor.Some? { CursorTransitive(cursor.value, last, e); }
      if e == last { BeforeIrreflexive(e); }
    }
  }

  /** Paging a static folder to the end yields exactly its sorted listing, for any mix of limits. */
  lemma StaticPagingIsListing(rows: seq<Entry>, folders: seq<seq<Entry>>, limits: seq<nat>)
    requires |folders| == |limits| && GoodLimits(limits) && DistinctKeys(rows)
    requires forall i :: 0 <= i < |folders| ==> folders[i] == rows
    requires |folders| > |rows|
    ensures Pages(folders, limits, None) == (Sort(rows), true)
  {
    AfterKeeps(rows, None);
    StaticPagingEnds(rows, folders, limits, None);
    PagingUnderChanges(folders, limits, None);
    SortSorts(rows);
    var all := Pages(folders, limits, None).0;
    forall x ensures x in all <==> x in Sort(rows) {
      if x in rows { assert AlwaysThere(x, folders); }
    }
    SortedUnique(all, Sort(rows));
  }

  function Static(rows: seq<Entry>, n: nat): seq<seq<Entry>> { seq(n, i => rows) }

  function Ones(n: nat): seq<nat> { seq(n, i => 1) }

  /** One entry a page: what is collected is strictly increasing, twins or not. */
  lemma {:induction false} OneByOneIncreases(rows: seq<Entry>, n: nat, cursor: Option<Cursor>)
    ensures var all := Pages(Static(rows, n), Ones(n), cursor).0;
            Sorted(all) && forall x :: x in all ==> Beyond(x, cursor)
  {
    if n > 0 {
      var p := IndexPage(rows, cursor, 0, 1);
      PageMembers(rows, cursor, 1);
      OneByOneStep(rows, n, cursor);
      if p.hasMore {
        OneByOneIncreases(rows, n - 1, p.next);
        FirstThenRest(p.entries[0], Pages(Static(rows, n - 1), Ones(n - 1), p.next).0, cursor);
        assert p.entries == [p.entries[0]];
      }
    }
  }

  lemma OneByOneStep(rows: seq<Entry>, n: nat, cursor: Option<Cursor>)
    requires n > 0
    ensures var p := IndexPage(rows, cursor, 0, 1);
            Pages(Static(rows, n), Ones(n), cursor).0 ==
              p.entries + (if p.hasMore then Pages(Static(rows, n - 1), Ones(n - 1), p.next).0 else [])
  {
    assert Static(rows, n)[1..] == Static(rows, n - 1) && Ones(n)[1..] == Ones(n - 1);
  }

  lemma FirstThenRest(e: Entry, rest: seq<Entry>, cursor: Option<Cursor>)
    requires Sorted(rest) && Beyond(e, cursor) && forall x :: x in rest ==> AfterCursor(x, CursorOf(e))
    ensures Sorted([e] + rest) && forall x :: x in [e] + rest ==> Beyond(x, cursor)
  {
    forall j | 0 <= j < |rest| ensures Before(e, rest[j]) && Beyond(rest[j], cursor) {
      assert rest[j] in rest;
      CursorIsEntry(e, rest[j]);
      if cursor.Some? { CursorTransitive(cursor.value, e, rest[j]); }
    }
    SortedJoin([e], rest);
  }

  /** Of two siblings equal ignoring case, paging one by one never shows both, in any folder and
      however many requests are made. */
  lemma OneTwinIsSkipped(rows: seq<Entry>, n: nat, a: Entry, b: Entry)
    requires a != b && SameKey(a, b)
    ensures var all := Pages(Static(rows, n), Ones(n), None).0; a !in all || b !in all
  {
    OneByOneIncreases(rows, n, None);
    TwinsAreNotOrdered(Pages(Static(rows, n), Ones(n), None).0, a, b);
  }

  lemma TwinsAreNotOrdered(all: seq<Entry>, a: Entry, b: Entry)
    requires Sorted(all) && a != b && SameKey(a, b)
    ensures a !in all || b !in all
  {
    LessIrreflexive(Lower(a.path));
    forall i, j | 0 <= i < |all| && 0 <= j < |all| ensures !(all[i] == a && all[j] == b) {
      assert i < j ==> Before(all[i], all[j]);
      assert j < i ==> Before(all[j], all[i]);
    }
  }

  /** Paging the unchanged folder with these limits shows all of its entries. */
  ghost predicate ShowsAll(rows: seq<Entry>, limits: seq<nat>)
    requires GoodLimits(limits)
  {
    forall e :: e in rows ==> e in Pages(Static(rows, |limits|), limits, None).0
  }

  /** Every way of paging the unchanged folder to its end shows all of its entries. */
  ghost predicate PagingIsComplete(rows: seq<Entry>) {
    forall limits :: GoodLimits(limits) && |limits| > |rows| ==> ShowsAll(rows, limits)
  }

  lemma DistinctShowsAll(rows: seq<Entry>, limits: seq<nat>)
    requires DistinctKeys(rows) && GoodLimits(limits) && |limits| > |rows|
    ensures ShowsAll(rows, limits)
  {
    StaticPagingIsListing(rows, Static(rows, |limits|), limits);
    SortMembers(rows);
  }

  lemma TwinsHideOne(rows: seq<Entry>, i: nat, j: nat, n: nat)
    requires i < j < |rows| && rows[i] != rows[j] && SameKey(rows[i], rows[j])
    ensures GoodLimits(Ones(n)) && !ShowsAll(rows, Ones(n))
  {
    OneTwinIsSkipped(rows, n, rows[i], rows[j]);
    assert rows[i] in rows && rows[j] in rows;
  }

  /** A folder's rows have different paths (the key of file_index). */
  predicate DistinctPaths(rows: seq<Entry>) {
    forall i, j :: 0 <= i < j < |rows| ==> rows[i].path != rows[j].path
  }

  /** Paging shows every entry for all limits in 1..1999 exactly when no two siblings are equal
      ignoring case. */
  lemma PagingCompleteIff(rows: seq<Entry>)
    requires DistinctPaths(rows)
    ensures PagingIsComplete(rows) <==> DistinctKeys(rows)
  {
    if DistinctKeys(rows) {
      forall limits | GoodLimits(limits) && |limits| > |rows| ensures ShowsAll(rows, limits) {
        DistinctShowsAll(rows, limits);
      }
    } else {
      var i, j :| 0 <= i < j < |rows| && SameKey(rows[i], rows[j]);
      TwinsHideOne(rows, i, j, |rows| + 1);
    }
  }

  /** Why siblings must differ ignoring case: with page size 1 the second of two twins is never shown. */
  lemma CaseTwinsAreSkipped(a: Entry, b: Entry)
    requires SameKey(a, b)
    ensures Pages([[a, b], [a, b]], [1, 1], None).1
    ensures |Pages([[a, b], [a, b]], [1, 1], None).0| == 1
  {
    var rows := [a, b];
    assert rows[1..] == [b] && [b][1..] == [];
    LessIrreflexive(Lower(a.path));
    LowerIdempotent(a.name);
    LowerIdempotent(b.name);
    assert After([b], None) == [b];
    assert After(rows, None) == [a] + [b] == rows;
    assert !Before(a, b);
    assert [b][1..] == [] && Insert(a, [b]) == [b] + Insert(a, []);
    assert Sort([b]) == [b] && Sort(rows) == [b] + [a] == [b, a];
    assert Drop([b, a], 0) == [b, a] && Take([b, a], 2) == [b, a];
    var c := Some(CursorOf(b));
    assert IndexPage(rows, None, 0, 1) == Page([b], true, c);
    CursorIsEntry(b, a);
    CursorIsEntry(b, b);
    assert !AfterCursor(a, c.value) && !AfterCursor(b, c.value);
    assert After([], c) == [];
    assert After([b], c) == [] + [];
    assert After(rows, c) == [] + [];
    assert IndexPage(rows, c, 0, 1) == Page([], false, None);
    assert [rows, rows][1..] == [rows] && [1, 1][1..] == [1];
    assert Pages([rows], [1], c) == ([], true);
    assert [b] + [] == [b];
  }

  // ---------------------------------------------------------------- the filesystem path

  function EntryTypeRank(isDir: bool): int { if isDir then 0 else 1 }

  function CompareEntryCursor(e: Entry, c: Cursor): int {
    var entryRank, cursorRank := EntryTypeRank(e.isDir), EntryTypeRank(c.isDir);
    if entryRank != cursorRank then (if entryRank < cursorRank then -1 else 1)
    else if Less(Lower(e.name), c.name) then -1
    else if Less(c.name, Lower(e.name)) then 1
    else if Lower(e.path) == Lower(c.path) || Less(Lower(e.path), Lower(c.path)) then -1
    else 1
  }

  /** The comparison in Go and the row-value comparison in SQL select the same entries. */
  lemma CompareIsAfter(e: Entry, c: Cursor)
    requires Lower(c.name) == c.name
    ensures CompareEntryCursor(e, c) > 0 <==> AfterCursor(e, c)
  {
    LessTotal(Lower(e.name), c.name);
    LessTotal(Lower(e.path), Lower(c.path));
    LessIrreflexive(c.name);
    LessIrreflexive(Lower(c.path));
    if Less(Lower(e.name), c.name) && Less(c.name, Lower(e.name)) { LessTransitive(c.name, Lower(e.name), c.name); }
    if Less(Lower(e.path), Lower(c.path)) && Less(Lower(c.path), Lower(e.path)) {
      LessTransitive(Lower(c.path), Lower(e.path), Lower(c.path));
    }
  }

  method CursorStart(entries: seq<Entry>, cursor: Cursor) returns (start: nat)
    requires Lower(cursor.name) == cursor.name
    ensures start <= |entries|
    ensures forall i :: 0 <= i < start ==> !AfterCursor(entries[i], cursor)
    ensures start < |entries| ==> AfterCursor(entries[start], cursor)
  {
    for i := 0 to |entries|
      invariant forall j :: 0 <= j < i ==> !AfterCursor(entries[j], cursor)
    {
      CompareIsAfter(entries[i], cursor);
      if CompareEntryCursor(entries[i], cursor) > 0 {
        return i;
      }
    }
    return |entries|;
  }

  /** What follows the cursor, or the offset, in the ordered folder. */
  function Rest(rows: seq<Entry>, cursor: Option<Cursor>, offset: nat): seq<Entry> {
    var ordered := Sort(After(rows, cursor));
    if cursor.None? then Drop(ordered, offset) else ordered
  }

  /** listFiles on the whole sorted folder: a page cut from the rest, with has_more right at every
      limit. Its page and cursor are those of the index path, unless at limit 2000 more is left. */
  method FallbackPage(rows: seq<Entry>, all: seq<Entry>, cursor: Option<Cursor>, offset: nat, limit: nat)
    returns (p: Page)
    requires DistinctKeys(rows) && Sorted(all) && (forall x :: x in all <==> x in rows)
    requires cursor.Some? ==> Lower(cursor.value.name) == cursor.value.name
    requires 0 < limit <= MAX_LIST_LIMIT
    ensures p.hasMore <==> |Rest(rows, cursor, offset)| > limit
    ensures p.entries == Take(Rest(rows, cursor, offset), limit) && InListingOrder(p.entries)
    ensures p == IndexPage(rows, cursor, offset, limit) <==>
            limit < MAX_LIST_LIMIT || |Rest(rows, cursor, offset)| <= MAX_LIST_LIMIT
  {
    var total := |all|;
    var start := offset;
    if cursor.Some? {
      start := CursorStart(all, cursor.value);
    }
    start := if start < total then start else total;
    var end := if start + limit < total then start + limit else total;
    var page := all[start..end];
    var next := None;
    if end < total && |page| > 0 {
      next := Some(CursorOf(page[|page|-1]));
    }
    p := Page(page, end < total, next);
    assert p == PageOf(all[start..], limit);
    RestFrom(rows, all, cursor, offset, start);
    RestInListingOrder(rows, cursor, offset, limit);
    CutAgreesIff(rows, cursor, offset, limit, all[start..]);
  }

  lemma RestInListingOrder(rows: seq<Entry>, cursor: Option<Cursor>, offset: nat, limit: nat)
    ensures InListingOrder(Take(Rest(rows, cursor, offset), limit))
  {
    SortInListingOrder(After(rows, cursor));
  }

  /** What follows the start position is the rest of the folder. */
  lemma RestFrom(rows: seq<Entry>, all: seq<Entry>, cursor: Option<Cursor>, offset: nat, start: nat)
    requires DistinctKeys(rows) && Sorted(all) && (forall x :: x in all <==> x in rows)
    requires start <= |all|
    requires cursor.None? ==> start == if offset < |all| then offset else |all|
    requires cursor.Some? ==> (forall i :: 0 <= i < start ==> !AfterCursor(all[i], cursor.value)) &&
                              (start < |all| ==> AfterCursor(all[start], cursor.value))
    ensures all[start..] == Rest(rows, cursor, offset)
  {
    if cursor.None? {
      RestIsAfter(rows, all, cursor, 0);
      assert all[0..] == all;
    } else {
      RestIsAfter(rows, all, cursor, start);
    }
  }

  /** The index page against the page cut from the rest, at every limit. */
  lemma CutAgreesIff(rows: seq<Entry>, cursor: Option<Cursor>, offset: nat, limit: nat, rest: seq<Entry>)
    requires 0 < limit <= MAX_LIST_LIMIT && rest == Rest(rows, cursor, offset)
    ensures PageOf(rest, limit) == IndexPage(rows, cursor, offset, limit) <==>
            limit < MAX_LIST_LIMIT || |rest| <= MAX_LIST_LIMIT
    ensures PageOf(rest, limit).entries == Take(rest, limit) && (PageOf(rest, limit).hasMore <==> |rest| > limit)
  {
    if limit < MAX_LIST_LIMIT {
      IndexPageIsCut(rows, cursor, offset, limit);
    } else {
      assert StoreLimit(limit + 1) == limit;
      assert IndexPage(rows, cursor, offset, limit) == Page(Take(rest, limit), false, None);
    }
  }

  /** In the sorted folder, what follows the cursor's position is the sorted keyset result. */
  lemma RestIsAfter(rows: seq<Entry>, all: seq<Entry>, cursor: Option<Cursor>, start: nat)
    requires DistinctKeys(rows) && Sorted(all) && (forall x :: x in all <==> x in rows)
    requires start <= |all|
    requires cursor.None? ==> start == 0
    requires cursor.Some? ==> (forall i :: 0 <= i < start ==> !AfterCursor(all[i], cursor.value)) &&
                              (start < |all| ==> AfterCursor(all[start], cursor.value))
    ensures all[start..] == Sort(After(rows, cursor))
  {
    AfterKeeps(rows, cursor);
    SortSorts(After(rows, cursor));
    var rest := all[start..];
    forall x ensures x in rest <==> x in Sort(After(rows, cursor)) {
      if x in rest {
        var i :| 0 <= i < |rest| && rest[i] == x;
        assert all[start + i] == x && x in all;
        if cursor.Some? && i > 0 { CursorTransitive(cursor.value, all[start], x); }
      }
      if x in After(rows, cursor) {
        assert x in all;
        var i :| 0 <= i < |all| && all[i] == x;
        assert i >= start;
        assert rest[i - start] == x;
      }
    }
    SortedUnique(rest, Sort(After(rows, cursor)));
  }
}

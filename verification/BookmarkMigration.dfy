/**
 The one-time cutover of bookmarks from the old workspace snapshot to the Browser
 store: rows and their comparison, the insert-only transaction, and every run of
 attempts, crashes, retries and foreign writes.
 */
module BookmarkMigration {
  import opened Prelude

  // ----- Values held by the two databases -----

  datatype Author = Author(principalId: string, actantId: string)

  datatype Bookmark = Bookmark(
    id: string, ownerPrincipalId: string, title: string, url: string, revision: int,
    createdAt: string, updatedAt: string, createdBy: Author, updatedBy: Author,
    deletedAt: Option<string>)

  /** The text of the workspace row. `layout` stands for everything in the text that
      parsing forgets, so two texts are equal exactly when all parts are. */
  datatype Body =
    | Malformed(text: string)
    | Workspace(layout: string, revision: int, bookmarks: seq<Bookmark>, rest: string)

  const CANONICAL := "JSON.stringify"

  predicate SchemaAccepts(body: Body) {
    body.Workspace? && 0 <= body.revision <= MAX_SAFE_INTEGER
  }

  datatype Cell = Text(text: string) | Number(number: int) | Null

  datatype Column =
    | TenantId | BookmarkId | OwnerPrincipalId | Title | Url | Revision | CreatedAt | UpdatedAt
    | CreatedByPrincipalId | CreatedByActantId | UpdatedByPrincipalId | UpdatedByActantId | DeletedAt

  const COLUMNS: seq<Column> := [
    TenantId, BookmarkId, OwnerPrincipalId, Title, Url, Revision, CreatedAt, UpdatedAt,
    CreatedByPrincipalId, CreatedByActantId, UpdatedByPrincipalId, UpdatedByActantId, DeletedAt]

  type Row = map<Column, Cell>

  /** Every row of the table has a cell in each column. */
  ghost predicate FullRow(row: Row) {
    forall c: Column :: c in row
  }

  function Nullable(text: Option<string>): Cell {
    match text
    case None => Null
    case Some(s) => Text(s)
  }

  function Values(tenantId: string, b: Bookmark): (r: seq<Cell>)
    ensures |r| == |COLUMNS|
  {
    [Text(tenantId), Text(b.id), Text(b.ownerPrincipalId), Text(b.title), Text(b.url), Number(b.revision),
     Text(b.createdAt), Text(b.updatedAt), Text(b.createdBy.principalId), Text(b.createdBy.actantId),
     Text(b.updatedBy.principalId), Text(b.updatedBy.actantId), Nullable(b.deletedAt)]
  }

  predicate ExactRow(row: Row, expected: seq<Cell>)
    requires |expected| == |COLUMNS|
  {
    forall i | 0 <= i < |COLUMNS| :: COLUMNS[i] in row && row[COLUMNS[i]] == expected[i]
  }

  /** The row an INSERT with the column list and these values stores. */
  function InsertedRow(values: seq<Cell>): (row: Row)
    requires |values| == |COLUMNS|
  {
    PairUp(COLUMNS, values)
  }

  function PairUp(columns: seq<Column>, values: seq<Cell>): Row
    requires |columns| == |values|
  {
    if columns == [] then map[] else PairUp(columns[1..], values[1..])[columns[0] := values[0]]
  }

  /** Read back by column name: the row is this bookmark of this tenant, in every column. */
  ghost predicate Stores(row: Row, tenantId: string, b: Bookmark) {
    && FullRow(row)
    && row[TenantId] == Text(tenantId)
    && row[BookmarkId] == Text(b.id)
    && row[OwnerPrincipalId] == Text(b.ownerPrincipalId)
    && row[Title] == Text(b.title)
    && row[Url] == Text(b.url)
    && row[Revision] == Number(b.revision)
    && row[CreatedAt] == Text(b.createdAt)
    && row[UpdatedAt] == Text(b.updatedAt)
    && row[CreatedByPrincipalId] == Text(b.createdBy.principalId)
    && row[CreatedByActantId] == Text(b.createdBy.actantId)
    && row[UpdatedByPrincipalId] == Text(b.updatedBy.principalId)
    && row[UpdatedByActantId] == Text(b.updatedBy.actantId)
    && row[DeletedAt] == if b.deletedAt.Some? then Text(b.deletedAt.value) else Null
  }

  /** The positional comparison of the script is equality in every named column. */
  lemma ExactRowIsStores(row: Row, tenantId: string, b: Bookmark)
    ensures ExactRow(row, Values(tenantId, b)) <==> Stores(row, tenantId, b)
  {
    var expected := Values(tenantId, b);
    if ExactRow(row, expected) {
      assert forall i | 0 <= i < |COLUMNS| :: row[COLUMNS[i]] == expected[i];
      assert COLUMNS[0] in row && COLUMNS[1] in row && COLUMNS[2] in row && COLUMNS[3] in row && COLUMNS[4] in row;
      assert COLUMNS[5] in row && COLUMNS[6] in row && COLUMNS[7] in row && COLUMNS[8] in row && COLUMNS[9] in row;
      assert COLUMNS[10] in row && COLUMNS[11] in row && COLUMNS[12] in row;
      forall c: Column ensures c in row {
        assert c in COLUMNS by { ColumnsComplete(c); }
      }
    }
  }

  lemma ColumnsComplete(c: Column)
    ensures c in COLUMNS
  {
    assert COLUMNS[0] == TenantId && COLUMNS[1] == BookmarkId && COLUMNS[2] == OwnerPrincipalId && COLUMNS[3] == Title;
    assert COLUMNS[4] == Url && COLUMNS[5] == Revision && COLUMNS[6] == CreatedAt && COLUMNS[7] == UpdatedAt;
    assert COLUMNS[8] == CreatedByPrincipalId && COLUMNS[9] == CreatedByActantId;
    assert COLUMNS[10] == UpdatedByPrincipalId && COLUMNS[11] == UpdatedByActantId && COLUMNS[12] == DeletedAt;
  }

  lemma {:induction false} PairUpAt(columns: seq<Column>, values: seq<Cell>, i: nat)
    requires |columns| == |values| && i < |columns|
    requires Distinct(columns)
    ensures columns[i] in PairUp(columns, values)
    ensures PairUp(columns, values)[columns[i]] == values[i]
  {
    if i > 0 {
      PairUpAt(columns[1..], values[1..], i - 1);
    }
  }

  /** What is inserted is what the comparison later accepts. */
  lemma InsertedRowIsExact(tenantId: string, b: Bookmark)
    ensures ExactRow(InsertedRow(Values(tenantId, b)), Values(tenantId, b))
    ensures Stores(InsertedRow(Values(tenantId, b)), tenantId, b)
  {
    InsertedRowMatches(Values(tenantId, b));
    ExactRowIsStores(InsertedRow(Values(tenantId, b)), tenantId, b);
  }

  lemma InsertedRowMatches(values: seq<Cell>)
    requires |values| == |COLUMNS|
    ensures ExactRow(InsertedRow(values), values)
  {
    ColumnsDiffer();
    PairsUp(COLUMNS, values);
  }

  lemma ColumnsDiffer()
    ensures Distinct(COLUMNS)
  {
  }

  lemma PairsUp(columns: seq<Column>, values: seq<Cell>)
    requires |columns| == |values| && Distinct(columns)
    ensures forall i | 0 <= i < |columns| ::
      columns[i] in PairUp(columns, values) && PairUp(columns, values)[columns[i]] == values[i]
  {
    forall i | 0 <= i < |columns| ensures columns[i] in PairUp(columns, values) && PairUp(columns, values)[columns[i]] == values[i] {
      PairUpAt(columns, values, i);
    }
  }

  // ----- The Browser table and the insert-only transaction -----

  datatype Key = Key(tenantId: string, bookmarkId: string)

  type Table = map<Key, Row>

  /** The CHECK constraints of the bookmarks table. */
  predicate ChecksPass(row: Row) {
    && Title in row && row[Title].Text? && 1 <= |row[Title].text| <= 180
    && Url in row && row[Url].Text? && 1 <= |row[Url].text| <= 4000
    && Revision in row && row[Revision].Number? && row[Revision].number > 0
  }

  predicate SameIn(row: Row, other: Row, c: Column) {
    c in row && c in other && row[c] == other[c]
  }

  /** The unique index on (tenant, owner, url) over rows that are not deleted. */
  predicate SameActiveUrl(row: Row, other: Row) {
    && SameIn(row, other, DeletedAt) && row[DeletedAt] == Null
    && SameIn(row, other, TenantId) && SameIn(row, other, OwnerPrincipalId) && SameIn(row, other, Url)
  }

  ghost predicate ValidTable(t: Table) {
    && (forall k | k in t :: FullRow(t[k]))
    && (forall k | k in t :: t[k][TenantId] == Text(k.tenantId) && t[k][BookmarkId] == Text(k.bookmarkId))
    && (forall k, l | k in t && l in t && k != l :: !SameActiveUrl(t[k], t[l]))
  }

  function Insert(t: Table, key: Key, row: Row): (r: Option<Table>) {
    if key in t || !ChecksPass(row) || exists k | k in t :: SameActiveUrl(t[k], row) then None
    else Some(t[key := row])
  }

  /** One pass of the insert loop: keep an exact row, refuse a different one, add a missing one. */
  function MergeOne(t: Table, tenantId: string, b: Bookmark): (r: Option<Table>) {
    var key, expected := Key(tenantId, b.id), Values(tenantId, b);
    if key in t then
      if ExactRow(t[key], expected) then Some(t) else None
    else
      Insert(t, key, InsertedRow(expected))
  }

  function MergeAll(t: Table, tenantId: string, bookmarks: seq<Bookmark>): (r: Option<Table>)
    decreases |bookmarks|
  {
    if bookmarks == [] then Some(t)
    else
      var next := MergeOne(t, tenantId, bookmarks[0]);
      if next.None? then None else MergeAll(next.value, tenantId, bookmarks[1..])
  }

  ghost predicate HasBookmark(t: Table, tenantId: string, b: Bookmark) {
    Key(tenantId, b.id) in t && Stores(t[Key(tenantId, b.id)], tenantId, b)
  }

  ghost predicate HasAll(t: Table, tenantId: string, bookmarks: seq<Bookmark>) {
    forall b | b in bookmarks :: HasBookmark(t, tenantId, b)
  }

  /** Every row of `t` is in `later`, unchanged. */
  ghost predicate Extends(later: Table, t: Table) {
    forall k | k in t :: k in later && later[k] == t[k]
  }

  /** Two different bookmarks that the unique index would not let both be active. */
  predicate Rivals(b: Bookmark, c: Bookmark) {
    b.deletedAt.None? && c.deletedAt.None? && b.ownerPrincipalId == c.ownerPrincipalId && b.url == c.url
  }

  predicate Storable(b: Bookmark) {
    1 <= |b.title| <= 180 && 1 <= |b.url| <= 4000 && b.revision > 0
  }

  predicate Blocks(row: Row, tenantId: string, b: Bookmark) {
    && b.deletedAt.None?
    && DeletedAt in row && row[DeletedAt] == Null
    && TenantId in row && row[TenantId] == Text(tenantId)
    && OwnerPrincipalId in row && row[OwnerPrincipalId] == Text(b.ownerPrincipalId)
    && Url in row && row[Url] == Text(b.url)
  }

  /** This bookmark can join the table on its own. */
  ghost predicate Admissible(t: Table, tenantId: string, b: Bookmark) {
    if Key(tenantId, b.id) in t then Stores(t[Key(tenantId, b.id)], tenantId, b)
    else Storable(b) && forall k | k in t :: !Blocks(t[k], tenantId, b)
  }

  /** What must hold of the table and the snapshot for the transaction to commit. */
  ghost predicate Compatible(t: Table, tenantId: string, bookmarks: seq<Bookmark>) {
    && (forall b | b in bookmarks :: Admissible(t, tenantId, b))
    && (forall b, c | b in bookmarks && c in bookmarks && b.id == c.id :: b == c)
    && (forall b, c | b in bookmarks && c in bookmarks && b.id != c.id :: !Rivals(b, c))
  }

  lemma InsertedRowBlocks(row: Row, tenantId: string, b: Bookmark)
    ensures ChecksPass(InsertedRow(Values(tenantId, b))) <==> Storable(b)
    ensures SameActiveUrl(row, InsertedRow(Values(tenantId, b))) <==> Blocks(row, tenantId, b)
  {
    InsertedRowIsExact(tenantId, b);
  }

  lemma InsertIff(t: Table, row: Row, tenantId: string, b: Bookmark)
    requires ValidTable(t) && Key(tenantId, b.id) !in t
    requires Stores(row, tenantId, b) && (ChecksPass(row) <==> Storable(b))
    requires forall k | k in t :: SameActiveUrl(t[k], row) <==> Blocks(t[k], tenantId, b)
    ensures
      var r := Insert(t, Key(tenantId, b.id), row);
      && (r.Some? <==> Admissible(t, tenantId, b))
      && (r.Some? ==> ValidTable(r.value) && Extends(r.value, t) && HasBookmark(r.value, tenantId, b)
                      && forall k | k in r.value && k !in t :: k == Key(tenantId, b.id))
  {
  }

  /** One merge succeeds exactly when the bookmark is admissible, and then the table holds it. */
  lemma MergeOneIff(t: Table, tenantId: string, b: Bookmark)
    requires ValidTable(t)
    ensures MergeOne(t, tenantId, b).Some? <==> Admissible(t, tenantId, b)
    ensures MergeOne(t, tenantId, b).Some? ==>
      var u := MergeOne(t, tenantId, b).value;
      && ValidTable(u) && Extends(u, t) && HasBookmark(u, tenantId, b)
      && (forall k | k in u && k !in t :: k == Key(tenantId, b.id))
  {
    var key := Key(tenantId, b.id);
    var row := InsertedRow(Values(tenantId, b));
    InsertedRowIsExact(tenantId, b);
    if key in t {
      ExactRowIsStores(t[key], tenantId, b);
    } else {
      InsertedRowBlocks(map[], tenantId, b);
      forall k | k in t
        ensures SameActiveUrl(t[k], row) <==> Blocks(t[k], tenantId, b)
      {
        InsertedRowBlocks(t[k], tenantId, b);
      }
      InsertIff(t, row, tenantId, b);
    }
  }

  /** The stored row determines the bookmark. */
  lemma StoresDetermines(row: Row, tenantId: string, b: Bookmark, c: Bookmark)
    requires Stores(row, tenantId, b) && Stores(row, tenantId, c)
    ensures b == c
  {
  }

  lemma CompatibleAfterFirst(t: Table, u: Table, tenantId: string, bookmarks: seq<Bookmark>)
    requires ValidTable(t) && bookmarks != []
    requires MergeOne(t, tenantId, bookmarks[0]) == Some(u)
    requires Compatible(t, tenantId, bookmarks)
    ensures Compatible(u, tenantId, bookmarks[1..])
  {
    var first := bookmarks[0];
    MergeOneIff(t, tenantId, first);
    forall b | b in bookmarks[1..]
      ensures Admissible(u, tenantId, b)
    {
      assert b in bookmarks && first in bookmarks;
      AdmissibleAfter(t, u, tenantId, first, b);
    }
  }

  lemma AdmissibleAfter(t: Table, u: Table, tenantId: string, first: Bookmark, b: Bookmark)
    requires ValidTable(t) && MergeOne(t, tenantId, first) == Some(u) && Admissible(t, tenantId, b)
    requires b.id == first.id ==> b == first
    requires b.id != first.id ==> !Rivals(first, b)
    ensures Admissible(u, tenantId, b)
  {
    MergeOneIff(t, tenantId, first);
    if Key(tenantId, b.id) !in u {
      forall k | k in u ensures !Blocks(u[k], tenantId, b) {
        if k !in t {
          assert !Rivals(first, b);
        }
      }
    }
  }

  lemma AgreesWithFirst(u: Table, tenantId: string, first: Bookmark, b: Bookmark)
    requires ValidTable(u) && HasBookmark(u, tenantId, first) && Admissible(u, tenantId, b)
    ensures b.id == first.id ==> b == first
    ensures b.id != first.id ==> !Rivals(first, b) && !Rivals(b, first)
  {
    var key := Key(tenantId, b.id);
    if b.id == first.id {
      StoresDetermines(u[key], tenantId, b, first);
    } else if key in u {
      assert !SameActiveUrl(u[key], u[Key(tenantId, first.id)]);
    } else {
      assert !Blocks(u[Key(tenantId, first.id)], tenantId, b);
    }
  }

  lemma AdmissibleBefore(t: Table, u: Table, tenantId: string, first: Bookmark, b: Bookmark)
    requires ValidTable(t) && MergeOne(t, tenantId, first) == Some(u) && Admissible(u, tenantId, b)
    ensures b.id == first.id ==> b == first
    ensures b.id != first.id ==> !Rivals(first, b) && !Rivals(b, first)
    ensures Admissible(t, tenantId, b)
  {
    MergeOneIff(t, tenantId, first);
    AgreesWithFirst(u, tenantId, first, b);
  }

  lemma CompatibleBeforeFirst(t: Table, u: Table, tenantId: string, bookmarks: seq<Bookmark>)
    requires ValidTable(t) && bookmarks != []
    requires MergeOne(t, tenantId, bookmarks[0]) == Some(u)
    requires Compatible(u, tenantId, bookmarks[1..])
    ensures Compatible(t, tenantId, bookmarks)
  {
    var first, rest := bookmarks[0], bookmarks[1..];
    MergeOneIff(t, tenantId, first);
    forall b | b in rest
      ensures b.id == first.id ==> b == first
      ensures b.id != first.id ==> !Rivals(first, b) && !Rivals(b, first)
      ensures Admissible(t, tenantId, b)
    {
      AdmissibleBefore(t, u, tenantId, first, b);
    }
    assert forall b | b in bookmarks :: b == first || b in rest;
  }

  /** `u` is `t` with these bookmarks: valid, every earlier row kept, every bookmark held, no other row. */
  ghost predicate Merged(t: Table, u: Table, tenantId: string, bookmarks: seq<Bookmark>) {
    && ValidTable(u) && Extends(u, t) && HasAll(u, tenantId, bookmarks)
    && (forall k | k in u && k !in t :: exists b | b in bookmarks :: k == Key(tenantId, b.id))
  }

  lemma MergedStep(t: Table, next: Table, u: Table, tenantId: string, bookmarks: seq<Bookmark>)
    requires bookmarks != [] && Extends(next, t) && HasBookmark(next, tenantId, bookmarks[0])
    requires forall k | k in next && k !in t :: k == Key(tenantId, bookmarks[0].id)
    requires Merged(next, u, tenantId, bookmarks[1..])
    ensures Merged(t, u, tenantId, bookmarks)
  {
    var first, rest := bookmarks[0], bookmarks[1..];
    assert forall b :: b in bookmarks <==> b == first || b in rest;
    forall k | k in u && k !in t ensures exists b | b in bookmarks :: k == Key(tenantId, b.id) {
      if k in next {
        assert first in bookmarks;
      } else {
        var b :| b in rest && k == Key(tenantId, b.id);
        assert b in bookmarks;
      }
    }
  }

  /** The transaction commits exactly when the snapshot is compatible with the table. It then
      holds every bookmark, keeps every earlier row and adds no other row. */
  lemma {:induction false} MergeAllIff(t: Table, tenantId: string, bookmarks: seq<Bookmark>)
    requires ValidTable(t)
    ensures MergeAll(t, tenantId, bookmarks).Some? <==> Compatible(t, tenantId, bookmarks)
    ensures MergeAll(t, tenantId, bookmarks).Some? ==>
      Merged(t, MergeAll(t, tenantId, bookmarks).value, tenantId, bookmarks)
    decreases |bookmarks|
  {
    if bookmarks != [] {
      var first, rest := bookmarks[0], bookmarks[1..];
      MergeOneIff(t, tenantId, first);
      var next := MergeOne(t, tenantId, first);
      if next.Some? {
        MergeAllIff(next.value, tenantId, rest);
        if Compatible(t, tenantId, bookmarks) {
          CompatibleAfterFirst(t, next.value, tenantId, bookmarks);
        } else if Compatible(next.value, tenantId, rest) {
          CompatibleBeforeFirst(t, next.value, tenantId, bookmarks);
        }
        var end := MergeAll(next.value, tenantId, rest);
        if end.Some? {
          MergedStep(t, next.value, end.value, tenantId, bookmarks);
        }
      } else {
        assert first in bookmarks;
      }
    }
  }

  /** A second transaction over the same snapshot finds everything in place. */
  lemma {:induction false} MergeAllTwice(t: Table, tenantId: string, bookmarks: seq<Bookmark>)
    requires HasAll(t, tenantId, bookmarks)
    ensures MergeAll(t, tenantId, bookmarks) == Some(t)
  {
    if bookmarks != [] {
      assert bookmarks[0] in bookmarks;
      ExactRowIsStores(t[Key(tenantId, bookmarks[0].id)], tenantId, bookmarks[0]);
      MergeAllTwice(t, tenantId, bookmarks[1..]);
    }
  }

  // ----- Every run of the cutover -----

  /** workspace.sqlite: the workspace row, the center identity, and whether some delivery is
      still sending or running. */
  datatype OldStore = OldStore(body: Body, tenantId: string, inFlight: bool)

  datatype Snapshot = Snapshot(body: Body, tenantId: string)

  /** How far the current attempt has come: the body read, the identity read too, the runtime state found
      idle, the rows written, the rows checked. Nothing of it survives a crash. */
  datatype Phase =
    | Idle | HasBody(body: Body) | HasIdentity(snapshot: Snapshot) | Read(snapshot: Snapshot)
    | Written(snapshot: Snapshot) | Checked(snapshot: Snapshot)

  datatype World = World(workspace: OldStore, browser: Table, phase: Phase, reports: seq<nat>)

  /** Each query of the snapshot and each transaction is one event; a crash or a foreign write may fall
      between any two. */
  datatype Event =
    | ReadBody | ReadIdentity | ReadRuntime | Commit | Verify | Clear | Crash | Foreign(next: OldStore)

  const ATTEMPT: seq<Event> := [ReadBody, ReadIdentity, ReadRuntime, Commit, Verify, Clear]

  function Bookmarks(s: Snapshot): seq<Bookmark> {
    if s.body.Workspace? then s.body.bookmarks else []
  }

  function Cleared(body: Body): Body
    requires body.Workspace?
  {
    Workspace(CANONICAL, body.revision + 1, [], body.rest)
  }

  function BodyStep(w: World): World {
    if w.phase.Idle? then w.(phase := HasBody(w.workspace.body)) else w
  }

  function IdentityStep(w: World): World {
    if !w.phase.HasBody? then w
    else if !SchemaAccepts(w.phase.body) then w.(phase := Idle)
    else if w.phase.body.bookmarks == [] then w.(phase := Idle, reports := w.reports + [0])
    else w.(phase := HasIdentity(Snapshot(w.phase.body, w.workspace.tenantId)))
  }

  function RuntimeStep(w: World): World {
    if !w.phase.HasIdentity? then w
    else if w.workspace.inFlight then w.(phase := Idle)
    else w.(phase := Read(w.phase.snapshot))
  }

  function CommitStep(w: World): World {
    if !w.phase.Read? then w
    else
      match MergeAll(w.browser, w.phase.snapshot.tenantId, Bookmarks(w.phase.snapshot))
      case None => w.(phase := Idle)
      case Some(t) => w.(browser := t, phase := Written(w.phase.snapshot))
  }

  predicate AllExact(t: Table, tenantId: string, bookmarks: seq<Bookmark>) {
    forall i | 0 <= i < |bookmarks| ::
      && Key(tenantId, bookmarks[i].id) in t
      && ExactRow(t[Key(tenantId, bookmarks[i].id)], Values(tenantId, bookmarks[i]))
  }

  function VerifyStep(w: World): World {
    if !w.phase.Written? then w
    else if AllExact(w.browser, w.phase.snapshot.tenantId, Bookmarks(w.phase.snapshot)) then
      w.(phase := Checked(w.phase.snapshot))
    else w.(phase := Idle)
  }

  function ClearStep(w: World): World {
    if !w.phase.Checked? then w
    else if w.workspace.body != w.phase.snapshot.body then w.(phase := Idle)
    else if !w.workspace.body.Workspace? || !SchemaAccepts(Cleared(w.workspace.body)) then w.(phase := Idle)
    else World(w.workspace.(body := Cleared(w.workspace.body)), w.browser, Idle,
               w.reports + [|Bookmarks(w.phase.snapshot)|])
  }

  function Step(w: World, e: Event): World {
    match e
    case ReadBody => BodyStep(w)
    case ReadIdentity => IdentityStep(w)
    case ReadRuntime => RuntimeStep(w)
    case Commit => CommitStep(w)
    case Verify => VerifyStep(w)
    case Clear => ClearStep(w)
    case Crash => w.(phase := Idle)
    case Foreign(next) => w.(workspace := next)
  }

  function Run(w: World, events: seq<Event>): World {
    if events == [] then w else Step(Run(w, events[..|events| - 1]), events[|events| - 1])
  }

  lemma {:induction false} RunConcat(w: World, a: seq<Event>, b: seq<Event>)
    ensures Run(w, a + b) == Run(Run(w, a), b)
  {
    if b == [] {
      assert a + b == a;
    } else {
      var front := b[..|b| - 1];
      RunConcat(w, a, front);
      assert (a + b)[..|a + b| - 1] == a + front;
    }
  }

  lemma AllExactIsHasAll(t: Table, tenantId: string, bookmarks: seq<Bookmark>)
    ensures AllExact(t, tenantId, bookmarks) <==> HasAll(t, tenantId, bookmarks)
  {
    forall i | 0 <= i < |bookmarks| && Key(tenantId, bookmarks[i].id) in t
      ensures ExactRow(t[Key(tenantId, bookmarks[i].id)], Values(tenantId, bookmarks[i])) <==>
              Stores(t[Key(tenantId, bookmarks[i].id)], tenantId, bookmarks[i])
    {
      ExactRowIsStores(t[Key(tenantId, bookmarks[i].id)], tenantId, bookmarks[i]);
    }
    if AllExact(t, tenantId, bookmarks) {
      forall b | b in bookmarks ensures HasBookmark(t, tenantId, b) {
        var i :| 0 <= i < |bookmarks| && bookmarks[i] == b;
        assert Key(tenantId, bookmarks[i].id) in t;
      }
    }
    if HasAll(t, tenantId, bookmarks) {
      forall i | 0 <= i < |bookmarks|
        ensures Key(tenantId, bookmarks[i].id) in t
        ensures ExactRow(t[Key(tenantId, bookmarks[i].id)], Values(tenantId, bookmarks[i]))
      {
        assert bookmarks[i] in bookmarks && HasBookmark(t, tenantId, bookmarks[i]);
      }
    }
  }

  /** What every reachable state keeps: a checked attempt's rows are all in the Browser store. */
  ghost predicate Safe(w: World) {
    && ValidTable(w.browser)
    && (w.phase.Checked? ==> HasAll(w.browser, w.phase.snapshot.tenantId, Bookmarks(w.phase.snapshot)))
  }

  lemma StepKeepsSafe(w: World, e: Event)
    requires Safe(w)
    ensures Safe(Step(w, e))
    ensures Extends(Step(w, e).browser, w.browser)
  {
    if e == Commit && w.phase.Read? {
      MergeAllIff(w.browser, w.phase.snapshot.tenantId, Bookmarks(w.phase.snapshot));
    } else if e == Verify && w.phase.Written? {
      AllExactIsHasAll(w.browser, w.phase.snapshot.tenantId, Bookmarks(w.phase.snapshot));
    }
  }

  /** The migration never overwrites and never deletes a Browser row, over any run. */
  lemma {:induction false} RunKeepsRows(w: World, events: seq<Event>)
    requires Safe(w)
    ensures Safe(Run(w, events))
    ensures Extends(Run(w, events).browser, w.browser)
  {
    if events != [] {
      var front := events[..|events| - 1];
      RunKeepsRows(w, front);
      StepKeepsSafe(Run(w, front), events[|events| - 1]);
    }
  }

  /** Over any run of attempts, crashes, retries and foreign writes: when the migration changes
      the old workspace, every bookmark of the body it replaces is already in the Browser store
      with all columns equal, and the only change is the emptied list and the next revision. */
  lemma ClearingIsSafe(w0: World, events: seq<Event>, e: Event)
    requires Safe(w0)
    requires !e.Foreign?
    requires Step(Run(w0, events), e).workspace != Run(w0, events).workspace
    ensures
      var w := Run(w0, events);
      var after := Step(w, e);
      && w.phase.Checked? && w.workspace.body == w.phase.snapshot.body && w.workspace.body.Workspace?
      && HasAll(w.browser, w.phase.snapshot.tenantId, w.workspace.body.bookmarks)
      && after.browser == w.browser
      && after.workspace == w.workspace.(body := Workspace(CANONICAL, w.workspace.body.revision + 1, [], w.workspace.body.rest))
      && after.reports == w.reports + [|w.workspace.body.bookmarks|]
  {
    RunKeepsRows(w0, events);
  }

  ghost predicate NobodyElseWrites(events: seq<Event>) {
    forall i | 0 <= i < |events| :: !events[i].Foreign?
  }

  predicate HasSnapshot(phase: Phase) {
    !phase.Idle? && !phase.HasBody?
  }

  /** A bookmark is in the old body or in the Browser store: none is ever lost. */
  ghost predicate Kept(w: World, tenantId: string, b: Bookmark) {
    || (w.workspace.body.Workspace? && b in w.workspace.body.bookmarks)
    || HasBookmark(w.browser, tenantId, b)
  }

  ghost predicate Keeping(w: World, tenantId: string, b: Bookmark) {
    && Kept(w, tenantId, b) && w.workspace.tenantId == tenantId
    && (HasSnapshot(w.phase) ==> w.phase.snapshot.tenantId == tenantId)
  }

  lemma StepKeepsKeeping(w: World, e: Event, tenantId: string, b: Bookmark)
    requires Safe(w) && Keeping(w, tenantId, b) && !e.Foreign?
    ensures Keeping(Step(w, e), tenantId, b)
  {
    match e {
      case Commit =>
        StepKeepsSafe(w, e);
      case Clear =>
        ClearKeepsKeeping(w, tenantId, b);
      case _ =>
    }
  }

  lemma ClearKeepsKeeping(w: World, tenantId: string, b: Bookmark)
    requires Safe(w) && Keeping(w, tenantId, b)
    ensures Keeping(ClearStep(w), tenantId, b)
  {
    if w.phase.Checked? {
      assert HasAll(w.browser, tenantId, Bookmarks(w.phase.snapshot));
    }
  }

  /** With no foreign writer, no bookmark of the initial body is lost at any point of any run. */
  lemma {:induction false} NoBookmarkIsLost(w0: World, events: seq<Event>, b: Bookmark)
    requires Safe(w0) && w0.phase.Idle? && NobodyElseWrites(events)
    requires w0.workspace.body.Workspace? && b in w0.workspace.body.bookmarks
    ensures Keeping(Run(w0, events), w0.workspace.tenantId, b)
  {
    if events != [] {
      var front, e := events[..|events| - 1], events[|events| - 1];
      NoBookmarkIsLost(w0, front, b);
      RunKeepsRows(w0, front);
      StepKeepsKeeping(Run(w0, front), e, w0.workspace.tenantId, b);
    }
  }

  /** The hypotheses of convergence: something to move, nothing in flight, nothing in the way. */
  ghost predicate Ready(w: World) {
    && w.phase.Idle? && ValidTable(w.browser)
    && SchemaAccepts(w.workspace.body) && w.workspace.body.revision < MAX_SAFE_INTEGER
    && w.workspace.body.bookmarks != [] && !w.workspace.inFlight
    && Compatible(w.browser, w.workspace.tenantId, w.workspace.body.bookmarks)
  }

  function Zeros(n: nat): seq<nat> {
    seq(n, _ => 0)
  }

  /** Where an undisturbed run can be, seen from its ready start `w0`: target not yet written,
      target written, or old body cleared. */
  ghost predicate OnTheWay(w0: World, w: World) {
    && w0.workspace.body.Workspace?
    && var before, tenantId := w0.workspace.body, w0.workspace.tenantId;
       var merged := MergeAll(w0.browser, tenantId, before.bookmarks);
       && merged.Some?
       && w.workspace.tenantId == tenantId && w.workspace.inFlight == w0.workspace.inFlight
       && (w.browser == w0.browser || w.browser == merged.value)
       && (w.workspace.body == before ==> w.reports == w0.reports)
       && (w.phase.HasBody? ==> w.phase.body == w.workspace.body)
       && (HasSnapshot(w.phase) ==> w.phase.snapshot == Snapshot(before, tenantId) && w.workspace.body == before)
       && (w.phase.Written? || w.phase.Checked? ==> w.browser == merged.value)
       && (w.workspace.body != before ==>
             && w.workspace.body == Cleared(before) && w.browser == merged.value
             && exists n: nat :: w.reports == w0.reports + [|before.bookmarks|] + Zeros(n))
  }

  /** The merged table: merging again leaves it alone, and it passes verification. */
  lemma MergeAllRepeats(t: Table, tenantId: string, bookmarks: seq<Bookmark>)
    requires ValidTable(t)
    ensures MergeAll(t, tenantId, bookmarks).Some? <==> Compatible(t, tenantId, bookmarks)
    ensures MergeAll(t, tenantId, bookmarks).Some? ==>
      var merged := MergeAll(t, tenantId, bookmarks);
      && MergeAll(merged.value, tenantId, bookmarks) == merged
      && AllExact(merged.value, tenantId, bookmarks)
  {
    MergeAllIff(t, tenantId, bookmarks);
    var merged := MergeAll(t, tenantId, bookmarks);
    if merged.Some? {
      MergeAllTwice(merged.value, tenantId, bookmarks);
      AllExactIsHasAll(merged.value, tenantId, bookmarks);
    }
  }

  /** These events only move the attempt along. */
  lemma QueryStaysOnTheWay(w0: World, w: World, e: Event)
    requires Ready(w0) && OnTheWay(w0, w) && e in [ReadBody, ReadRuntime, Verify, Crash]
    ensures OnTheWay(w0, Step(w, e))
  {
  }

  lemma IdentityStaysOnTheWay(w0: World, w: World)
    requires Ready(w0) && OnTheWay(w0, w)
    ensures OnTheWay(w0, IdentityStep(w))
  {
    var before := w0.workspace.body;
    if w.phase.HasBody? && w.workspace.body == Cleared(before) {
      var n: nat :| w.reports == w0.reports + [|before.bookmarks|] + Zeros(n);
      assert IdentityStep(w).reports == w0.reports + [|before.bookmarks|] + Zeros(n + 1);
    }
  }

  lemma CommitStaysOnTheWay(w0: World, w: World)
    requires Ready(w0) && OnTheWay(w0, w)
    ensures OnTheWay(w0, CommitStep(w))
  {
    MergeAllRepeats(w0.browser, w0.workspace.tenantId, w0.workspace.body.bookmarks);
  }

  lemma ClearStaysOnTheWay(w0: World, w: World)
    requires Ready(w0) && OnTheWay(w0, w)
    ensures OnTheWay(w0, ClearStep(w))
  {
    var before := w0.workspace.body;
    assert w0.reports + [|before.bookmarks|] == w0.reports + [|before.bookmarks|] + Zeros(0);
  }

  lemma StepStaysOnTheWay(w0: World, w: World, e: Event)
    requires Ready(w0) && OnTheWay(w0, w) && !e.Foreign?
    ensures OnTheWay(w0, Step(w, e))
  {
    match e {
      case ReadIdentity => IdentityStaysOnTheWay(w0, w);
      case Commit => CommitStaysOnTheWay(w0, w);
      case Clear => ClearStaysOnTheWay(w0, w);
      case _ => QueryStaysOnTheWay(w0, w, e);
    }
  }

  lemma {:induction false} RunStaysOnTheWay(w0: World, events: seq<Event>)
    requires Ready(w0) && NobodyElseWrites(events)
    ensures OnTheWay(w0, Run(w0, events))
  {
    if events == [] {
      MergeAllIff(w0.browser, w0.workspace.tenantId, w0.workspace.body.bookmarks);
    } else {
      var front := events[..|events| - 1];
      RunStaysOnTheWay(w0, front);
      StepStaysOnTheWay(w0, Run(w0, front), events[|events| - 1]);
    }
  }

  /** One uninterrupted attempt from anywhere on the way ends with both stores migrated. */
  lemma AttemptFinishes(w0: World, w: World)
    requires Ready(w0) && OnTheWay(w0, w) && w.phase.Idle?
    ensures
      var done := Run(w, ATTEMPT);
      && done.workspace == w0.workspace.(body := Cleared(w0.workspace.body))
      && MergeAll(w0.browser, w0.workspace.tenantId, w0.workspace.body.bookmarks) == Some(done.browser)
  {
    MergeAllRepeats(w0.browser, w0.workspace.tenantId, w0.workspace.body.bookmarks);
    RunOfAttempt(w);
    if w.workspace.body == w0.workspace.body {
      WritesThrough(BeginStep(w));
    }
  }

  /** From a snapshot that is still current: write, check and clear, with nobody in between. */
  lemma WritesThrough(w: World)
    requires w.phase.Read? && SchemaAccepts(w.workspace.body) && w.phase.snapshot.body == w.workspace.body
    ensures
      var end, body := ClearStep(VerifyStep(CommitStep(w))), w.workspace.body;
      var merged := MergeAll(w.browser, w.phase.snapshot.tenantId, body.bookmarks);
      && end.browser == (if merged.Some? then merged.value else w.browser)
      && (merged.None? ==> end.workspace == w.workspace)
      && (merged.Some? && AllExact(merged.value, w.phase.snapshot.tenantId, body.bookmarks) ==>
            end.workspace == if body.revision < MAX_SAFE_INTEGER then w.workspace.(body := Cleared(body)) else w.workspace)
  {
  }

  /** The three reads with nobody in between. */
  function BeginStep(w: World): World
    requires w.phase.Idle?
  {
    if !SchemaAccepts(w.workspace.body) then w
    else if w.workspace.body.bookmarks == [] then w.(reports := w.reports + [0])
    else if w.workspace.inFlight then w
    else w.(phase := Read(Snapshot(w.workspace.body, w.workspace.tenantId)))
  }

  lemma ReadsTogether(w: World)
    requires w.phase.Idle?
    ensures RuntimeStep(IdentityStep(BodyStep(w))) == BeginStep(w)
  {
  }

  lemma RunOfAttempt(w: World)
    requires w.phase.Idle?
    ensures Run(w, ATTEMPT) == ClearStep(VerifyStep(CommitStep(BeginStep(w))))
  {
    var queries, changes := [ReadBody, ReadIdentity, ReadRuntime], [Commit, Verify, Clear];
    assert ATTEMPT == queries + changes;
    RunConcat(w, queries, changes);
    RunThree(w, ReadBody, ReadIdentity, ReadRuntime);
    ReadsTogether(w);
    RunThree(Run(w, queries), Commit, Verify, Clear);
  }

  lemma RunThree(w: World, a: Event, b: Event, c: Event)
    ensures Run(w, [a, b, c]) == Step(Step(Step(w, a), b), c)
  {
    var abc, ab, one := [a, b, c], [a, b], [a];
    assert abc[..2] == ab && ab[..1] == one && one[..0] == [];
    assert Run(w, one) == Step(w, a);
    assert Run(w, ab) == Step(Run(w, one), b);
  }

  /** What an undisturbed attempt leaves: nothing is touched unless it gets to write; then the target has
      every bookmark and every earlier row and no other, and the old list is cleared if the revision can
      grow. */
  ghost predicate EndsAs(workspace: OldStore, browser: Table, workspace': OldStore, browser': Table) {
    var body, tenantId := workspace.body, workspace.tenantId;
    if SchemaAccepts(body) && body.bookmarks != [] && !workspace.inFlight && Compatible(browser, tenantId, body.bookmarks) then
      && Merged(browser, browser', tenantId, body.bookmarks)
      && workspace' == if body.revision < MAX_SAFE_INTEGER
                       then workspace.(body := Workspace(CANONICAL, body.revision + 1, [], body.rest)) else workspace
    else browser' == browser && workspace' == workspace
  }

  lemma AttemptEnds(w: World)
    requires w.phase.Idle? && ValidTable(w.browser)
    ensures EndsAs(w.workspace, w.browser, Run(w, ATTEMPT).workspace, Run(w, ATTEMPT).browser)
  {
    RunOfAttempt(w);
    if BeginStep(w).phase.Read? {
      MergeAllRepeats(w.browser, w.workspace.tenantId, w.workspace.body.bookmarks);
      MergeAllIff(w.browser, w.workspace.tenantId, w.workspace.body.bookmarks);
      WritesThrough(BeginStep(w));
    }
  }

  /** An undisturbed attempt clears the old list exactly when it was ready to. */
  lemma AttemptClearsIffReady(w: World)
    requires w.phase.Idle? && ValidTable(w.browser)
    ensures Run(w, ATTEMPT).workspace != w.workspace <==> Ready(w)
  {
    AttemptEnds(w);
  }

  ghost predicate SomethingNew(t: Table, tenantId: string, bookmarks: seq<Bookmark>) {
    exists b | b in bookmarks :: Key(tenantId, b.id) !in t
  }

  /** All else is ready, something is new to the store, and the revision cannot grow. */
  ghost predicate FillsOnly(w: World) {
    && SchemaAccepts(w.workspace.body) && !w.workspace.inFlight
    && Compatible(w.browser, w.workspace.tenantId, w.workspace.body.bookmarks)
    && SomethingNew(w.browser, w.workspace.tenantId, w.workspace.body.bookmarks)
    && w.workspace.body.revision == MAX_SAFE_INTEGER
  }

  /** An undisturbed attempt fills the Browser store and yet leaves the old list exactly when all else is
      ready, something is new to the store, and the revision cannot grow. */
  lemma FillsWithoutClearingIff(w: World)
    requires w.phase.Idle? && ValidTable(w.browser)
    ensures (Run(w, ATTEMPT).browser != w.browser && Run(w, ATTEMPT).workspace == w.workspace) <==> FillsOnly(w)
  {
    AttemptEnds(w);
    var end, body, tenantId := Run(w, ATTEMPT), w.workspace.body, w.workspace.tenantId;
    if SchemaAccepts(body) && body.bookmarks != [] && !w.workspace.inFlight && Compatible(w.browser, tenantId, body.bookmarks) {
      MergedIsNewIff(w.browser, end.browser, tenantId, body.bookmarks);
    }
  }

  lemma MergedIsNewIff(t: Table, u: Table, tenantId: string, bookmarks: seq<Bookmark>)
    requires Merged(t, u, tenantId, bookmarks)
    ensures u != t <==> SomethingNew(t, tenantId, bookmarks)
  {
    if SomethingNew(t, tenantId, bookmarks) {
      var b :| b in bookmarks && Key(tenantId, b.id) !in t;
      assert HasBookmark(u, tenantId, b);
    } else {
      forall k ensures k in u <==> k in t {
      }
      assert u == t;
    }
  }

  /** Where attempts that are not ready can be. */
  ghost predicate Stuck(w0: World, w: World) {
    && w.workspace == w0.workspace
    && (w.phase.HasBody? ==> w.phase.body == w0.workspace.body)
    && (HasSnapshot(w.phase) ==>
          && SchemaAccepts(w0.workspace.body) && w0.workspace.body.bookmarks != []
          && w.phase.snapshot == Snapshot(w0.workspace.body, w0.workspace.tenantId)
          && (w.phase.HasIdentity? || !w0.workspace.inFlight))
    && (w.browser != w0.browser || w.phase.Written? || w.phase.Checked? ==>
          w0.workspace.body.Workspace? && w0.workspace.body.revision == MAX_SAFE_INTEGER)
  }

  lemma StepStaysStuck(w0: World, w: World, e: Event)
    requires w0.phase.Idle? && ValidTable(w0.browser) && !Ready(w0) && Stuck(w0, w) && !e.Foreign?
    ensures Stuck(w0, Step(w, e))
  {
    if e == Commit && w.phase.Read? && w.browser == w0.browser {
      MergeAllIff(w0.browser, w0.workspace.tenantId, w0.workspace.body.bookmarks);
    }
  }

  /** With nobody else writing, a cutover that is not ready never clears, however often it is retried. */
  lemma {:induction false} NotReadyNeverClears(w0: World, events: seq<Event>)
    requires w0.phase.Idle? && ValidTable(w0.browser) && !Ready(w0) && NobodyElseWrites(events)
    ensures Stuck(w0, Run(w0, events))
  {
    if events != [] {
      NotReadyNeverClears(w0, events[..|events| - 1]);
      StepStaysStuck(w0, Run(w0, events[..|events| - 1]), events[|events| - 1]);
    }
  }

  /** The identity read at `i` follows a body read, with no other identity read and no crash between. */
  ghost predicate Answers(events: seq<Event>, i: nat) {
    i < |events| && events[i] == ReadIdentity && Waiting(events[..i])
  }

  /** A body was read, and since then neither an identity read nor a crash. */
  ghost predicate Waiting(events: seq<Event>) {
    exists j: nat | j < |events| ::
      events[j] == ReadBody && forall k | j < k < |events| :: events[k] != ReadIdentity && events[k] != Crash
  }

  /** The positions of all identity reads that followed a body read. */
  ghost function Answered(events: seq<Event>): set<nat> {
    set i: nat | i < |events| && Answers(events, i)
  }

  lemma WaitingNext(events: seq<Event>, e: Event)
    ensures Waiting(events + [e]) <==> e == ReadBody || (Waiting(events) && e != ReadIdentity && e != Crash)
  {
    var all, n := events + [e], |events|;
    if Waiting(all) {
      var j: nat :| j < |all| && all[j] == ReadBody && forall k | j < k < |all| :: all[k] != ReadIdentity && all[k] != Crash;
      if j < n {
        assert events[j] == ReadBody && forall k | j < k < n :: events[k] == all[k];
        assert all[n] == e;
      }
    }
    if e == ReadBody {
      assert all[n] == ReadBody;
    } else if Waiting(events) && e != ReadIdentity && e != Crash {
      var j: nat :| j < n && events[j] == ReadBody && forall k | j < k < n :: events[k] != ReadIdentity && events[k] != Crash;
      assert all[j] == ReadBody;
    }
  }

  lemma AnswersInFront(events: seq<Event>, e: Event, i: nat)
    ensures Answers(events + [e], i) <==> Answers(events, i) || (i == |events| && e == ReadIdentity && Waiting(events))
  {
    var all := events + [e];
    if i <= |events| {
      assert all[..i] == events[..i];
      assert events[..|events|] == events;
    }
  }

  lemma AnsweredNext(events: seq<Event>, e: Event)
    ensures |Answered(events + [e])| == |Answered(events)| + if e == ReadIdentity && Waiting(events) then 1 else 0
  {
    var now, more := Answered(events), if e == ReadIdentity && Waiting(events) then {|events|} else {};
    forall i: nat ensures i in Answered(events + [e]) <==> i in now + more {
      AnswersInFront(events, e, i);
    }
    assert Answered(events + [e]) == now + more;
  }

  /** Where attempts on an empty list are: waiting for the identity or not, with so many reports of 0. */
  ghost predicate Settled(w: World, later: World, waiting: bool, zeros: nat) {
    && later.workspace == w.workspace && later.browser == w.browser
    && later.phase == (if waiting then HasBody(w.workspace.body) else Idle)
    && later.reports == w.reports + Zeros(zeros)
  }

  lemma SettledStep(w: World, later: World, waiting: bool, zeros: nat, e: Event)
    requires SchemaAccepts(w.workspace.body) && w.workspace.body.bookmarks == [] && !e.Foreign?
    requires Settled(w, later, waiting, zeros)
    ensures Settled(w, Step(later, e), e == ReadBody || (waiting && e != ReadIdentity && e != Crash),
                    zeros + if e == ReadIdentity && waiting then 1 else 0)
  {
    ZeroMore(w.reports, zeros);
  }

  /** Once the old list is empty, every later attempt changes neither store; each identity read that
      follows a body read reports 0, and nothing else reports. */
  lemma {:induction false} SettledStaysSettled(w: World, events: seq<Event>)
    requires w.phase.Idle? && SchemaAccepts(w.workspace.body) && w.workspace.body.bookmarks == []
    requires NobodyElseWrites(events)
    ensures Settled(w, Run(w, events), Waiting(events), |Answered(events)|)
  {
    if events == [] {
      assert Answered(events) == {};
      assert w.reports == w.reports + Zeros(0);
    } else {
      var front, e := events[..|events| - 1], events[|events| - 1];
      SettledStaysSettled(w, front);
      assert events == front + [e];
      WaitingNext(front, e);
      AnsweredNext(front, e);
      SettledStep(w, Run(w, front), Waiting(front), |Answered(front)|, e);
    }
  }

  lemma ZeroMore(reports: seq<nat>, n: nat)
    ensures reports + Zeros(n) + [0] == reports + Zeros(n + 1)
  {
  }

  /** A body the schema refuses is never reported and never changed. */
  lemma {:induction false} RefusedStaysRefused(w: World, events: seq<Event>)
    requires w.phase.Idle? && !SchemaAccepts(w.workspace.body) && NobodyElseWrites(events)
    ensures
      var later := Run(w, events);
      && later.workspace == w.workspace && later.browser == w.browser && later.reports == w.reports
      && (later.phase.Idle? || later.phase == HasBody(w.workspace.body))
  {
    if events != [] {
      RefusedStaysRefused(w, events[..|events| - 1]);
    }
  }

  /** The list is cleared by the clearing after `before` and reported then; every later report is one of 0
      for each identity read that follows a body read. */
  ghost predicate ReportedOnce(w0: World, events: seq<Event>, before: seq<Event>, later: seq<Event>)
    requires w0.workspace.body.Workspace?
  {
    && events == before + [Clear] + later && Run(w0, before).workspace == w0.workspace
    && Run(w0, before).reports == w0.reports && ClearStep(Run(w0, before)).workspace != w0.workspace
    && Run(w0, events).reports == w0.reports + [|w0.workspace.body.bookmarks|] + Zeros(|Answered(later)|)
  }

  lemma OnlyClearEvent(w: World, e: Event)
    requires !e.Foreign? && Step(w, e).workspace != w.workspace
    ensures e == Clear && Step(w, e) == ClearStep(w)
  {
  }

  /** After `before` the clearing is the first event to change the old workspace, and `later` follows. */
  ghost predicate ClearsFirst(w0: World, events: seq<Event>, before: seq<Event>, later: seq<Event>) {
    && events == before + [Clear] + later && Run(w0, before).workspace == w0.workspace
    && ClearStep(Run(w0, before)).workspace != w0.workspace && Run(w0, events) == Run(ClearStep(Run(w0, before)), later)
  }

  lemma ClearsFirstStill(w0: World, events: seq<Event>, before: seq<Event>, later: seq<Event>, e: Event)
    requires ClearsFirst(w0, events, before, later)
    ensures ClearsFirst(w0, events + [e], before, later + [e])
  {
    RunNext(w0, events, e);
    RunNext(ClearStep(Run(w0, before)), later, e);
    assert events + [e] == before + [Clear] + (later + [e]);
  }

  lemma RunNext(w: World, events: seq<Event>, e: Event)
    ensures Run(w, events + [e]) == Step(Run(w, events), e)
  {
    assert (events + [e])[..|events|] == events;
  }

  /** The first event that changes the old workspace is a clearing, and the run goes on from there. */
  lemma {:induction false} FirstClearing(w0: World, events: seq<Event>) returns (before: seq<Event>, later: seq<Event>)
    requires NobodyElseWrites(events) && Run(w0, events).workspace != w0.workspace
    ensures ClearsFirst(w0, events, before, later) && NobodyElseWrites(before) && NobodyElseWrites(later)
  {
    var n := |events| - 1;
    var front := events[..n];
    if Run(w0, front).workspace == w0.workspace {
      OnlyClearEvent(Run(w0, front), events[n]);
      assert events == front + [Clear] + [];
      return front, [];
    }
    before, later := FirstClearing(w0, front);
    ClearsFirstStill(w0, front, before, later, events[n]);
    assert front + [events[n]] == events;
    later := later + [events[n]];
  }

  lemma ClearedReportsOnce(w0: World, events: seq<Event>) returns (before: seq<Event>, later: seq<Event>)
    requires Ready(w0) && NobodyElseWrites(events) && Run(w0, events).workspace != w0.workspace
    ensures ReportedOnce(w0, events, before, later)
  {
    before, later := FirstClearing(w0, events);
    RunStaysOnTheWay(w0, before);
    SettledStaysSettled(ClearStep(Run(w0, before)), later);
  }

  /** Any number of attempts broken off anywhere, then one completed attempt, reaches the same two
      stores as a single uninterrupted attempt; the revision has moved by exactly one. */
  lemma Convergence(w0: World, events: seq<Event>)
    requires Ready(w0) && NobodyElseWrites(events)
    ensures
      var retried := Run(w0, events + [Crash] + ATTEMPT);
      var once := Run(w0, ATTEMPT);
      && retried.workspace == once.workspace && retried.browser == once.browser
      && once.workspace.body.Workspace? && once.workspace.body.bookmarks == []
      && once.workspace.body.revision == w0.workspace.body.revision + 1
      && once.workspace.body.rest == w0.workspace.body.rest
      && HasAll(once.browser, w0.workspace.tenantId, w0.workspace.body.bookmarks)
      && exists before, later :: ReportedOnce(w0, events + [Crash] + ATTEMPT, before, later)
  {
    var broken := events + [Crash];
    RunStaysOnTheWay(w0, broken);
    assert broken[..|broken| - 1] == events;
    RunConcat(w0, broken, ATTEMPT);
    AttemptFinishes(w0, Run(w0, broken));
    assert Run(w0, []) == w0;
    RunStaysOnTheWay(w0, []);
    AttemptFinishes(w0, w0);
    MergeAllIff(w0.browser, w0.workspace.tenantId, w0.workspace.body.bookmarks);
    assert Run(w0, broken + ATTEMPT).workspace != w0.workspace;
    var before, later := ClearedReportsOnce(w0, broken + ATTEMPT);
  }

  // ----- The script's own loops and transactions -----

  class Databases {
    var workspace: OldStore
    var browser: Table

    constructor (workspace: OldStore, browser: Table)
      ensures this.workspace == workspace && this.browser == browser
    {
      this.workspace := workspace;
      this.browser := browser;
    }

    /** BEGIN IMMEDIATE, the insert loop, COMMIT; a refused bookmark rolls everything back. */
    method CommitBrowser(tenantId: string, bookmarks: seq<Bookmark>) returns (committed: bool)
      modifies this`browser
      ensures committed <==> MergeAll(old(browser), tenantId, bookmarks).Some?
      ensures committed ==> MergeAll(old(browser), tenantId, bookmarks) == Some(browser)
      ensures !committed ==> browser == old(browser)
    {
      var tx := browser;
      for i := 0 to |bookmarks|
        invariant MergeAll(old(browser), tenantId, bookmarks) == MergeAll(tx, tenantId, bookmarks[i..])
        invariant browser == old(browser)
      {
        var expected := Values(tenantId, bookmarks[i]);
        var key := Key(tenantId, bookmarks[i].id);
        if key in tx {
          if !ExactRow(tx[key], expected) {
            return false;
          }
        } else {
          var inserted := Insert(tx, key, InsertedRow(expected));
          if inserted.None? {
            return false;
          }
          tx := inserted.value;
        }
      }
      browser := tx;
      return true;
    }

    /** The fresh read-only pass over the Browser store. */
    method VerifyBrowser(tenantId: string, bookmarks: seq<Bookmark>) returns (ok: bool)
      ensures ok <==> HasAll(browser, tenantId, bookmarks)
    {
      AllExactIsHasAll(browser, tenantId, bookmarks);
      for i := 0 to |bookmarks|
        invariant AllExact(browser, tenantId, bookmarks[..i])
      {
        var key := Key(tenantId, bookmarks[i].id);
        if key !in browser || !ExactRow(browser[key], Values(tenantId, bookmarks[i])) {
          return false;
        }
      }
      assert bookmarks[..|bookmarks|] == bookmarks;
      return true;
    }

    /** Compare the workspace text with the snapshot and clear its bookmarks. */
    method CompareAndClear(originalBody: Body) returns (cleared: bool)
      requires originalBody.Workspace?
      modifies this`workspace
      ensures cleared <==> old(workspace).body == originalBody && SchemaAccepts(Cleared(originalBody))
      ensures workspace == if cleared then old(workspace).(body := Cleared(originalBody)) else old(workspace)
    {
      if workspace.body != originalBody {
        return false;
      }
      var next := Cleared(originalBody);
      if !SchemaAccepts(next) {
        return false;
      }
      workspace := workspace.(body := next);
      return true;
    }

    /** One attempt from start to end, with nobody else writing: exactly the six events. The
        result is the reported count, or nothing when the attempt throws. */
    method MigrateOnce(ghost reports: seq<nat>) returns (migrated: Option<nat>)
      modifies this
      ensures
        var end := Run(World(old(workspace), old(browser), Idle, reports), ATTEMPT);
        && workspace == end.workspace && browser == end.browser
        && end.reports == if migrated.Some? then reports + [migrated.value] else reports
      ensures migrated == Some(0) <==> SchemaAccepts(old(workspace).body) && old(workspace).body.bookmarks == []
      ensures ValidTable(old(browser)) ==>
        (migrated.Some? && migrated.value > 0 <==> Ready(World(old(workspace), old(browser), Idle, reports)))
      ensures ValidTable(old(browser)) ==> EndsAs(old(workspace), old(browser), workspace, browser)
      ensures migrated.Some? ==> old(workspace).body.Workspace? && migrated.value == |old(workspace).body.bookmarks|
    {
      ghost var start := World(workspace, browser, Idle, reports);
      RunOfAttempt(start);
      if ValidTable(browser) {
        AttemptEnds(start);
        AttemptClearsIffReady(start);
      }
      var original := workspace.body;
      var tenantId := workspace.tenantId;
      if !SchemaAccepts(original) {
        return None;
      }
      if original.bookmarks == [] {
        return Some(0);
      }
      if workspace.inFlight {
        return None;
      }
      var committed := CommitBrowser(tenantId, original.bookmarks);
      if !committed {
        return None;
      }
      AllExactIsHasAll(browser, tenantId, original.bookmarks);
      var verified := VerifyBrowser(tenantId, original.bookmarks);
      if !verified {
        return None;
      }
      var cleared := CompareAndClear(original);
      if !cleared {
        return None;
      }
      return Some(|original.bookmarks|);
    }
  }
}

/**
 The one-time cutover of notification state from the old service rows to the Platform store:
 the migrated state of each row, the insert-only transaction over preferences and ordered read
 rows, and every run of attempts, crashes, retries and foreign writes.
 */
module NotificationMigration {
  import opened Prelude
  import ReadIds

  type Id = ReadIds.Id

  // ----- The old store -----

  datatype OldMode = OldAll | OldOff | OldHigh

  /** A service_state body; `layout` is what parsing forgets, so equality is equality of texts. */
  datatype RowBody = BadRow(text: string) | StateRow(layout: string, mode: OldMode, read: seq<Id>)

  /** The row name holds a digest of the principal id, taken to be injective. */
  datatype Name = NotificationsOf(principalId: string) | UnknownNotifications(text: string) | OtherService(text: string)

  datatype ServiceRow = ServiceRow(name: Name, body: RowBody)

  datatype Body = Malformed(text: string) | Valid(layout: string, principals: seq<string>, workspace: ReadIds.Workspace)

  /** workspace.sqlite, its service rows in name order. */
  datatype OldStore = OldStore(body: Body, rows: seq<ServiceRow>, tenantId: string, inFlight: bool)

  /** The name is the primary key of service_state. */
  ghost predicate KeyedByName(rows: seq<ServiceRow>) {
    forall i, j | 0 <= i < j < |rows| :: rows[i].name != rows[j].name
  }

  datatype Mode = All | Off

  function NewMode(mode: OldMode): Mode {
    if mode == OldAll then All else Off
  }

  /** What one old row becomes. */
  datatype State = State(row: ServiceRow, principalId: string, mode: Mode, read: seq<Id>)

  predicate NoDuplicates(read: seq<Id>) {
    |Elements(read)| == |read|
  }

  predicate RowAccepted(body: Body, row: ServiceRow) {
    && body.Valid? && row.name.NotificationsOf? && row.name.principalId in body.principals
    && row.body.StateRow? && |row.body.read| <= 2000 && NoDuplicates(row.body.read)
  }

  function StateOf(body: Body, row: ServiceRow): State
    requires RowAccepted(body, row)
  {
    State(row, row.name.principalId, NewMode(row.body.mode),
          ReadIds.Translate(body.workspace, row.name.principalId, row.body.read))
  }

  /** The states of the notification rows, or nothing when some row makes the script throw. */
  function StatesOf(body: Body, rows: seq<ServiceRow>): Option<seq<State>> {
    if rows == [] then Some([])
    else
      var rest := StatesOf(body, rows[..|rows| - 1]);
      var last := rows[|rows| - 1];
      if rest.None? || last.name.OtherService? then rest
      else if !RowAccepted(body, last) then None
      else Some(rest.value + [StateOf(body, last)])
  }

  /** The rows the script reads: all that are named as notification state. */
  const NOTIFIES: ServiceRow -> bool := (r: ServiceRow) => !r.name.OtherService?

  /** The row is of a known principal and holds at most 2000 read ids, none twice. */
  ghost predicate Acceptable(body: Body, row: ServiceRow) {
    && body.Valid? && row.name.NotificationsOf? && row.name.principalId in body.principals
    && row.body.StateRow? && |row.body.read| <= 2000 && Distinct(row.body.read)
  }

  /** `all` stays, `off` and `high` become `off`. */
  ghost predicate ModeBecomes(mode: OldMode, next: Mode) {
    match mode
    case OldAll => next == All
    case OldOff => next == Off
    case OldHigh => next == Off
  }

  /** What one old row becomes, by its own contents and the live notifications of its principal. */
  ghost predicate IsStateOf(body: Body, row: ServiceRow, s: State) {
    && Acceptable(body, row) && s.row == row && s.principalId == row.name.principalId && ModeBecomes(row.body.mode, s.mode)
    && ReadIds.IsTranslation(ReadIds.LiveViews(body.workspace, row.name.principalId), row.body.read, s.read)
  }

  ghost predicate AllAcceptable(body: Body, rows: seq<ServiceRow>) {
    forall i | 0 <= i < |rows| && NOTIFIES(rows[i]) :: Acceptable(body, rows[i])
  }

  ghost predicate StatesAt(body: Body, rows: seq<ServiceRow>, at: seq<nat>, states: seq<State>) {
    |states| == |at| && forall j | 0 <= j < |at| :: at[j] < |rows| && IsStateOf(body, rows[at[j]], states[j])
  }

  lemma AcceptedIsAcceptable(body: Body, row: ServiceRow)
    ensures RowAccepted(body, row) <==> Acceptable(body, row)
    ensures RowAccepted(body, row) ==> IsStateOf(body, row, StateOf(body, row))
  {
    if row.body.StateRow? {
      DistinctIff(row.body.read);
    }
    if RowAccepted(body, row) {
      ReadIds.TranslationIsInOrder(body.workspace, row.name.principalId, row.body.read);
    }
  }

  /** The states are those of the notification rows, in row order; there are none at all exactly when some
      such row cannot be accepted. */
  lemma {:induction false} StatesOfExact(body: Body, rows: seq<ServiceRow>) returns (at: seq<nat>)
    ensures StatesOf(body, rows).Some? <==> AllAcceptable(body, rows)
    ensures Picks(rows, NOTIFIES, at) && (StatesOf(body, rows).Some? ==> StatesAt(body, rows, at, StatesOf(body, rows).value))
  {
    at := [];
    if rows != [] {
      var n := |rows| - 1;
      at := StatesOfExact(body, rows[..n]);
      PicksSnoc(rows[..n], NOTIFIES, at, rows[n]);
      assert rows == rows[..n] + [rows[n]];
      AcceptedIsAcceptable(body, rows[n]);
      AcceptableNext(body, rows);
      if StatesOf(body, rows).Some? && NOTIFIES(rows[n]) {
        StatesNext(body, rows, at, StatesOf(body, rows[..n]).value, StateOf(body, rows[n]));
      }
      at := at + if NOTIFIES(rows[n]) then [n] else [];
    }
  }

  lemma AcceptableNext(body: Body, rows: seq<ServiceRow>)
    requires rows != []
    ensures
      var n := |rows| - 1;
      AllAcceptable(body, rows) <==> AllAcceptable(body, rows[..n]) && (NOTIFIES(rows[n]) ==> Acceptable(body, rows[n]))
  {
    forall i | 0 <= i < |rows| - 1 ensures rows[..|rows| - 1][i] == rows[i] {
    }
  }

  lemma StatesNext(body: Body, rows: seq<ServiceRow>, at: seq<nat>, states: seq<State>, s: State)
    requires rows != [] && StatesAt(body, rows[..|rows| - 1], at, states) && IsStateOf(body, rows[|rows| - 1], s)
    ensures StatesAt(body, rows, at + [|rows| - 1], states + [s])
  {
    forall j | 0 <= j < |at| ensures at[j] < |rows| && IsStateOf(body, rows[at[j]], states[j]) {
      assert rows[..|rows| - 1][at[j]] == rows[at[j]];
    }
  }

  // ----- The Platform tables -----

  datatype Key = Key(tenantId: string, principalId: string)

  datatype Preference = Preference(mode: Mode, revision: int)

  datatype Read = Read(order: int, id: Id)

  /** Preferences by primary key, and each principal's read rows in read_order. */
  datatype Platform = Platform(preferences: map<Key, Preference>, marks: map<Key, seq<Read>>) {

    function ReadsAt(k: Key): seq<Read> {
      if k in marks then marks[k] else []
    }

    predicate Holds(k: Key, s: State) {
      k in preferences && preferences[k] == Preference(s.mode, 1) && Ids(ReadsAt(k)) == s.read
    }
  }

  function Ids(marks: seq<Read>): seq<Id> {
    if marks == [] then [] else [marks[0].id] + Ids(marks[1..])
  }

  lemma {:induction false} IdsExact(marks: seq<Read>)
    ensures |Ids(marks)| == |marks| && forall i | 0 <= i < |marks| :: Ids(marks)[i] == marks[i].id
  {
    if marks != [] {
      IdsExact(marks[1..]);
    }
  }

  function Place(marks: seq<Read>, r: Read): seq<Read> {
    if marks == [] || r.order < marks[0].order then [r] + marks else [marks[0]] + Place(marks[1..], r)
  }

  /** One INSERT into notification_reads, under its primary key and its unique order. */
  function InsertRead(marks: seq<Read>, r: Read): Option<seq<Read>> {
    if exists i | 0 <= i < |marks| :: marks[i].id == r.id || marks[i].order == r.order then None
    else Some(Place(marks, r))
  }

  /** The read rows numbered from `index` + 1. */
  function InsertReads(marks: seq<Read>, ids: seq<Id>, index: nat): Option<seq<Read>>
    requires index <= |ids|
    decreases |ids| - index
  {
    if index == |ids| then Some(marks)
    else
      var next := InsertRead(marks, Read(index + 1, ids[index]));
      if next.None? then None else InsertReads(next.value, ids, index + 1)
  }

  function MergeOne(p: Platform, tenantId: string, s: State): Option<Platform> {
    var k := Key(tenantId, s.principalId);
    if k in p.preferences then
      if p.Holds(k, s) then Some(p) else None
    else
      var marks := InsertReads(p.ReadsAt(k), s.read, 0);
      if marks.None? then None
      else Some(Platform(p.preferences[k := Preference(s.mode, 1)], p.marks[k := marks.value]))
  }

  function MergeAll(p: Platform, tenantId: string, states: seq<State>): Option<Platform>
    decreases |states|
  {
    if states == [] then Some(p)
    else
      var next := MergeOne(p, tenantId, states[0]);
      if next.None? then None else MergeAll(next.value, tenantId, states[1..])
  }

  predicate HoldsAll(p: Platform, tenantId: string, states: seq<State>) {
    forall i | 0 <= i < |states| :: p.Holds(Key(tenantId, states[i].principalId), states[i])
  }

  /** No preference is changed or removed, no read row is removed, and the reads of a principal
      that has a preference are untouched. */
  ghost predicate Extends(later: Platform, p: Platform) {
    && (forall k | k in p.preferences ::
          k in later.preferences && later.preferences[k] == p.preferences[k] && later.ReadsAt(k) == p.ReadsAt(k))
    && (forall k, r | r in p.ReadsAt(k) :: r in later.ReadsAt(k))
  }

  lemma ExtendsTransitive(a: Platform, b: Platform, c: Platform)
    requires Extends(b, a) && Extends(c, b)
    ensures Extends(c, a)
  {
  }

  lemma {:induction false} PlaceFacts(marks: seq<Read>, r: Read)
    ensures |Place(marks, r)| == |marks| + 1
    ensures forall x :: x in Place(marks, r) <==> x in marks || x == r
    ensures (forall i | 0 <= i < |marks| :: marks[i].order <= r.order) ==> Place(marks, r) == marks + [r]
  {
    if marks != [] && r.order >= marks[0].order {
      PlaceFacts(marks[1..], r);
      assert forall x :: x in marks <==> x == marks[0] || x in marks[1..];
      if forall i | 0 <= i < |marks| :: marks[i].order <= r.order {
        assert forall i | 0 <= i < |marks[1..]| :: marks[1..][i] == marks[i + 1];
        assert marks == [marks[0]] + marks[1..];
      }
    }
  }

  /** Read rows as ORDER BY read_order lists them. */
  ghost predicate InReadOrder(marks: seq<Read>) {
    forall i, j | 0 <= i < j < |marks| :: marks[i].order < marks[j].order
  }

  lemma {:induction false} PlaceKeepsOrder(marks: seq<Read>, r: Read)
    requires InReadOrder(marks) && forall i | 0 <= i < |marks| :: marks[i].order != r.order
    ensures InReadOrder(Place(marks, r))
  {
    if marks != [] && r.order >= marks[0].order {
      PlaceKeepsOrder(marks[1..], r);
      PlaceFacts(marks[1..], r);
      var placed := Place(marks[1..], r);
      forall i | 0 <= i < |placed| ensures marks[0].order < placed[i].order {
        assert placed[i] in placed;
      }
    }
  }

  lemma {:induction false} InsertReadsKeepsOrder(marks: seq<Read>, ids: seq<Id>, index: nat)
    requires InReadOrder(marks) && index <= |ids|
    ensures InsertReads(marks, ids, index).Some? ==> InReadOrder(InsertReads(marks, ids, index).value)
    decreases |ids| - index
  {
    if index < |ids| {
      var r := Read(index + 1, ids[index]);
      if InsertRead(marks, r).Some? {
        PlaceKeepsOrder(marks, r);
        InsertReadsKeepsOrder(Place(marks, r), ids, index + 1);
      }
    }
  }

  /** The tables keep listing each principal's reads in read_order. */
  lemma {:induction false} MergeAllKeepsOrder(p: Platform, tenantId: string, states: seq<State>)
    requires forall k :: InReadOrder(p.ReadsAt(k))
    ensures MergeAll(p, tenantId, states).Some? ==>
      forall k :: InReadOrder(MergeAll(p, tenantId, states).value.ReadsAt(k))
    decreases |states|
  {
    if states != [] {
      InsertReadsKeepsOrder(p.ReadsAt(Key(tenantId, states[0].principalId)), states[0].read, 0);
      var next := MergeOne(p, tenantId, states[0]);
      if next.Some? {
        forall k ensures InReadOrder(next.value.ReadsAt(k)) {
          assert InReadOrder(p.ReadsAt(k));
        }
        MergeAllKeepsOrder(next.value, tenantId, states[1..]);
      }
    }
  }

  lemma {:induction false} IdsLength(marks: seq<Read>)
    ensures |Ids(marks)| == |marks|
    ensures forall i | 0 <= i < |marks| :: Ids(marks)[i] == marks[i].id
  {
    if marks != [] {
      IdsLength(marks[1..]);
    }
  }

  /** Inserting read rows only adds: each id takes a row, and earlier rows stay. */
  lemma {:induction false} InsertReadsAdds(marks: seq<Read>, ids: seq<Id>, index: nat)
    requires index <= |ids|
    requires InsertReads(marks, ids, index).Some?
    ensures |InsertReads(marks, ids, index).value| == |marks| + |ids| - index
    ensures forall r | r in marks :: r in InsertReads(marks, ids, index).value
    decreases |ids| - index
  {
    if index < |ids| {
      PlaceFacts(marks, Read(index + 1, ids[index]));
      InsertReadsAdds(InsertRead(marks, Read(index + 1, ids[index])).value, ids, index + 1);
    }
  }

  /** The read rows a list gives when nothing was there before. */
  function Numbered(ids: seq<Id>, n: nat): seq<Read>
    requires n <= |ids|
  {
    seq(n, i requires 0 <= i < n => Read(i + 1, ids[i]))
  }

  lemma {:induction false} InsertReadsIntoEmpty(ids: seq<Id>, index: nat)
    requires Distinct(ids) && index <= |ids|
    ensures InsertReads(Numbered(ids, index), ids, index) == Some(Numbered(ids, |ids|))
    decreases |ids| - index
  {
    if index < |ids| {
      var marks, r := Numbered(ids, index), Read(index + 1, ids[index]);
      PlaceFacts(marks, r);
      assert Numbered(ids, index + 1) == marks + [r];
      assert forall i | 0 <= i < |marks| :: marks[i].id == ids[i] && ids[i] != ids[index];
      InsertReadsIntoEmpty(ids, index + 1);
    }
  }

  lemma NumberedIds(ids: seq<Id>)
    ensures Ids(Numbered(ids, |ids|)) == ids
  {
    IdsLength(Numbered(ids, |ids|));
  }

  /** A merged principal is held exactly when no stray read rows were in the way. */
  lemma MergeOneFacts(p: Platform, tenantId: string, s: State)
    requires Distinct(s.read)
    ensures
      var k := Key(tenantId, s.principalId);
      var r := MergeOne(p, tenantId, s);
      && (r.Some? ==>
            && Extends(r.value, p)
            && k in r.value.preferences
            && (forall l | l != k :: (l in r.value.preferences <==> l in p.preferences)
                                     && r.value.ReadsAt(l) == p.ReadsAt(l)))
      && (k in p.preferences ==> r == if p.Holds(k, s) then Some(p) else None)
      && (k !in p.preferences && p.ReadsAt(k) == [] ==> r.Some? && r.value.Holds(k, s))
      && (k !in p.preferences && p.ReadsAt(k) != [] && r.Some? ==> !r.value.Holds(k, s))
  {
    var k := Key(tenantId, s.principalId);
    if k !in p.preferences {
      var marks := InsertReads(p.ReadsAt(k), s.read, 0);
      if marks.Some? {
        InsertReadsAdds(p.ReadsAt(k), s.read, 0);
        IdsLength(marks.value);
      }
      if p.ReadsAt(k) == [] {
        assert Numbered(s.read, 0) == [];
        InsertReadsIntoEmpty(s.read, 0);
        NumberedIds(s.read);
      }
    }
  }

  /** The states of one snapshot: one per principal, each with a duplicate-free read list. */
  ghost predicate OnePerPrincipal(states: seq<State>) {
    && (forall i, j | 0 <= i < j < |states| :: states[i].principalId != states[j].principalId)
    && (forall i | 0 <= i < |states| :: Distinct(states[i].read))
  }

  /** No read row of the principal has the id or the number of one that is still to be inserted. */
  ghost predicate NoClash(marks: seq<Read>, ids: seq<Id>, index: nat) {
    forall m, j | m in marks && index <= j < |ids| :: m.id != ids[j] && m.order != j + 1
  }

  lemma {:induction false} InsertReadsIff(marks: seq<Read>, ids: seq<Id>, index: nat)
    requires Distinct(ids) && index <= |ids|
    ensures InsertReads(marks, ids, index).Some? <==> NoClash(marks, ids, index)
    decreases |ids| - index
  {
    if index < |ids| {
      var r := Read(index + 1, ids[index]);
      var next := InsertRead(marks, r);
      if next.Some? {
        PlaceFacts(marks, r);
        InsertReadsIff(next.value, ids, index + 1);
        forall m | m in marks ensures m.id != ids[index] && m.order != index + 1 {
          var i :| 0 <= i < |marks| && marks[i] == m;
        }
        ClashNext(marks, next.value, ids, index);
      } else {
        var i :| 0 <= i < |marks| && (marks[i].id == r.id || marks[i].order == r.order);
        assert marks[i] in marks;
      }
    }
  }

  lemma ClashNext(marks: seq<Read>, next: seq<Read>, ids: seq<Id>, index: nat)
    requires Distinct(ids) && index < |ids| && forall m | m in marks :: m.id != ids[index] && m.order != index + 1
    requires forall m :: m in next <==> m in marks || m == Read(index + 1, ids[index])
    ensures NoClash(next, ids, index + 1) <==> NoClash(marks, ids, index)
  {
    var r := Read(index + 1, ids[index]);
    assert r in next;
    if NoClash(marks, ids, index) {
      forall m, j | m in next && index + 1 <= j < |ids| ensures m.id != ids[j] && m.order != j + 1 {
        if m == r {
          assert ids[index] != ids[j];
        }
      }
    }
    if NoClash(next, ids, index + 1) {
      forall m, j | m in marks && index <= j < |ids| ensures m.id != ids[j] && m.order != j + 1 {
        assert m in next;
      }
    }
  }

  /** One state is written exactly when the target has it already, or has no preference for the principal
      and no read row with one of its ids or numbers. */
  lemma MergeOneIff(p: Platform, tenantId: string, s: State)
    requires Distinct(s.read)
    ensures
      var k := Key(tenantId, s.principalId);
      MergeOne(p, tenantId, s).Some? <==> if k in p.preferences then p.Holds(k, s) else NoClash(p.ReadsAt(k), s.read, 0)
  {
    InsertReadsIff(p.ReadsAt(Key(tenantId, s.principalId)), s.read, 0);
  }

  /** The target takes this state: it already holds it, or has nothing for the principal. */
  predicate Takes(p: Platform, tenantId: string, s: State) {
    var k := Key(tenantId, s.principalId);
    if k in p.preferences then p.Holds(k, s) else p.ReadsAt(k) == []
  }

  predicate TakesAll(p: Platform, tenantId: string, states: seq<State>) {
    forall i | 0 <= i < |states| :: Takes(p, tenantId, states[i])
  }

  /** The transaction only adds; when it commits, the target holds every state exactly when it
      took every one, that is, when no stray read rows and no other preference were there. */
  lemma {:induction false} MergeAllFacts(p: Platform, tenantId: string, states: seq<State>)
    requires OnePerPrincipal(states)
    ensures
      var r := MergeAll(p, tenantId, states);
      && (r.Some? ==> Extends(r.value, p))
      && (TakesAll(p, tenantId, states) ==> r.Some? && HoldsAll(r.value, tenantId, states))
      && (r.Some? && HoldsAll(r.value, tenantId, states) ==> TakesAll(p, tenantId, states))
      && (r.Some? ==> forall k: Key | (forall i | 0 <= i < |states| :: k.principalId != states[i].principalId) ::
            (k in r.value.preferences <==> k in p.preferences) && r.value.ReadsAt(k) == p.ReadsAt(k))
    decreases |states|
  {
    if states != [] {
      var s, rest := states[0], states[1..];
      MergeOneFacts(p, tenantId, s);
      var next := MergeOne(p, tenantId, s);
      if next.Some? {
        MergeAllFacts(next.value, tenantId, rest);
        var r := MergeAll(p, tenantId, states);
        TakesAfterFirst(p, next.value, tenantId, states);
        if r.Some? {
          ExtendsTransitive(p, next.value, r.value);
          FirstIsSettled(p, next.value, r.value, tenantId, states);
        }
      }
    }
  }

  lemma TakesAfterFirst(p: Platform, next: Platform, tenantId: string, states: seq<State>)
    requires OnePerPrincipal(states) && states != []
    requires MergeOne(p, tenantId, states[0]) == Some(next)
    ensures TakesAll(next, tenantId, states[1..]) <==> forall i | 1 <= i < |states| :: Takes(p, tenantId, states[i])
  {
    MergeOneFacts(p, tenantId, states[0]);
    forall i | 1 <= i < |states|
      ensures Takes(next, tenantId, states[i]) <==> Takes(p, tenantId, states[i])
    {
      var k := Key(tenantId, states[i].principalId);
      assert k != Key(tenantId, states[0].principalId);
    }
    assert forall i | 0 <= i < |states[1..]| :: states[1..][i] == states[i + 1];
    if TakesAll(next, tenantId, states[1..]) {
      forall i | 1 <= i < |states| ensures Takes(p, tenantId, states[i]) {
        assert states[i] == states[1..][i - 1];
      }
    }
  }

  lemma FirstIsSettled(p: Platform, next: Platform, end: Platform, tenantId: string, states: seq<State>)
    requires OnePerPrincipal(states) && states != []
    requires MergeOne(p, tenantId, states[0]) == Some(next)
    requires Extends(end, next)
    ensures end.Holds(Key(tenantId, states[0].principalId), states[0]) <==> Takes(p, tenantId, states[0])
    ensures HoldsAll(end, tenantId, states) <==>
      end.Holds(Key(tenantId, states[0].principalId), states[0]) && HoldsAll(end, tenantId, states[1..])
  {
    MergeOneFacts(p, tenantId, states[0]);
    assert forall i | 0 <= i < |states[1..]| :: states[1..][i] == states[i + 1];
    assert forall i | 1 <= i < |states| :: states[i] == states[1..][i - 1];
  }

  lemma {:induction false} MergeAllTwice(p: Platform, tenantId: string, states: seq<State>)
    requires HoldsAll(p, tenantId, states)
    ensures MergeAll(p, tenantId, states) == Some(p)
    decreases |states|
  {
    if states != [] {
      MergeAllTwice(p, tenantId, states[1..]);
    }
  }

  // ----- Deleting the old rows -----

  function Without(rows: seq<ServiceRow>, row: ServiceRow): seq<ServiceRow> {
    if rows == [] then []
    else if rows[0] == row then Without(rows[1..], row)
    else [rows[0]] + Without(rows[1..], row)
  }

  /** DELETE ... WHERE name=? AND body=?, which must change a row; the first miss rolls back. */
  function RemoveAll(rows: seq<ServiceRow>, states: seq<State>): Option<seq<ServiceRow>>
    decreases |states|
  {
    if states == [] then Some(rows)
    else if states[0].row !in rows then None
    else RemoveAll(Without(rows, states[0].row), states[1..])
  }

  lemma {:induction false} WithoutFacts(rows: seq<ServiceRow>, row: ServiceRow)
    ensures forall r :: r in Without(rows, row) <==> r in rows && r != row
    ensures KeyedByName(rows) ==> KeyedByName(Without(rows, row))
  {
    if rows != [] {
      WithoutFacts(rows[1..], row);
      assert forall r :: r in rows <==> r == rows[0] || r in rows[1..];
      if KeyedByName(rows) && rows[0] != row {
        var rest := Without(rows[1..], row);
        forall i | 0 <= i < |rest| ensures rows[0].name != rest[i].name {
          assert rest[i] in rest;
        }
      }
    }
  }

  ghost predicate DistinctRows(states: seq<State>) {
    forall i, j | 0 <= i < j < |states| :: states[i].row != states[j].row
  }

  ghost predicate RowOfSome(states: seq<State>, row: ServiceRow) {
    exists i | 0 <= i < |states| :: states[i].row == row
  }

  /** The rows go all together or not at all, and no other row goes. */
  lemma {:induction false} RemoveAllFacts(rows: seq<ServiceRow>, states: seq<State>)
    requires DistinctRows(states)
    ensures RemoveAll(rows, states).Some? <==> forall i | 0 <= i < |states| :: states[i].row in rows
    ensures RemoveAll(rows, states).Some? ==>
      forall r :: r in RemoveAll(rows, states).value <==> r in rows && !RowOfSome(states, r)
    ensures RemoveAll(rows, states).Some? && KeyedByName(rows) ==> KeyedByName(RemoveAll(rows, states).value)
    decreases |states|
  {
    if states != [] && states[0].row in rows {
      var rest := states[1..];
      WithoutFacts(rows, states[0].row);
      RemoveAllFacts(Without(rows, states[0].row), rest);
      assert forall i | 1 <= i < |states| :: states[i] == rest[i - 1] && states[i].row != states[0].row;
      forall r ensures RowOfSome(states, r) <==> r == states[0].row || RowOfSome(rest, r) {
        if RowOfSome(rest, r) {
          var i :| 0 <= i < |rest| && rest[i].row == r;
          assert states[i + 1].row == r;
        }
      }
    }
  }

  /** The states a snapshot gives: one for each notification row, computed from that row. */
  lemma {:induction false} StatesOfFacts(body: Body, rows: seq<ServiceRow>)
    requires StatesOf(body, rows).Some?
    ensures forall s | s in StatesOf(body, rows).value ::
      s.row in rows && RowAccepted(body, s.row) && s == StateOf(body, s.row)
    ensures forall r | r in rows && !r.name.OtherService? :: RowAccepted(body, r) && StateOf(body, r) in StatesOf(body, rows).value
  {
    if rows != [] {
      StatesOfFacts(body, rows[..|rows| - 1]);
      assert forall r :: r in rows <==> r in rows[..|rows| - 1] || r == rows[|rows| - 1];
    }
  }

  lemma {:induction false} StatesOfDistinct(body: Body, rows: seq<ServiceRow>)
    requires KeyedByName(rows) && StatesOf(body, rows).Some?
    ensures OnePerPrincipal(StatesOf(body, rows).value) && DistinctRows(StatesOf(body, rows).value)
  {
    if rows != [] {
      var front, last := rows[..|rows| - 1], rows[|rows| - 1];
      StatesOfDistinct(body, front);
      StatesOfFacts(body, front);
      if !last.name.OtherService? {
        ReadIds.TranslationIsIdempotent(body.workspace, last.name.principalId, last.body.read);
        var earlier := StatesOf(body, front).value;
        forall i | 0 <= i < |earlier| ensures earlier[i].principalId != last.name.principalId {
          assert earlier[i] in earlier && earlier[i].row in front;
        }
      }
    }
  }

  // ----- Every run of the cutover -----

  datatype Snapshot = Snapshot(body: Body, rows: seq<ServiceRow>, tenantId: string)

  /** How far the current attempt has come: the body read, the identity too, the rows too, the runtime
      state found idle, the states written, the states checked. Nothing of it survives a crash. */
  datatype Phase =
    | Idle | HasBody(body: Body) | HasIdentity(body: Body, tenantId: string)
    | HasRows(snapshot: Snapshot) | Taken(snapshot: Snapshot) | Written(snapshot: Snapshot) | Checked(snapshot: Snapshot)

  predicate HasSnapshot(phase: Phase) {
    phase.HasRows? || phase.Taken? || phase.Written? || phase.Checked?
  }

  datatype World = World(workspace: OldStore, platform: Platform, phase: Phase, reports: seq<nat>)

  /** Each query of the snapshot and each transaction is one event; a crash or a foreign write may fall
      between any two. */
  datatype Event =
    | ReadBody | ReadIdentity | ReadRows | ReadRuntime | Commit | Verify | Clear | Crash | Foreign(next: OldStore)

  const ATTEMPT: seq<Event> := [ReadBody, ReadIdentity, ReadRows, ReadRuntime, Commit, Verify, Clear]

  function States(s: Snapshot): seq<State> {
    match StatesOf(s.body, s.rows)
    case None => []
    case Some(states) => states
  }

  function BodyStep(w: World): World {
    if w.phase.Idle? && w.workspace.body.Valid? then w.(phase := HasBody(w.workspace.body)) else w
  }

  function IdentityStep(w: World): World {
    if w.phase.HasBody? then w.(phase := HasIdentity(w.phase.body, w.workspace.tenantId)) else w
  }

  function RowsStep(w: World): World {
    if !w.phase.HasIdentity? then w
    else
      match StatesOf(w.phase.body, w.workspace.rows)
      case None => w.(phase := Idle)
      case Some(states) =>
        if states == [] then w.(phase := Idle, reports := w.reports + [0])
        else w.(phase := HasRows(Snapshot(w.phase.body, w.workspace.rows, w.phase.tenantId)))
  }

  function RuntimeStep(w: World): World {
    if !w.phase.HasRows? then w
    else if w.workspace.inFlight then w.(phase := Idle)
    else w.(phase := Taken(w.phase.snapshot))
  }

  function CommitStep(w: World): World {
    if !w.phase.Taken? then w
    else
      match MergeAll(w.platform, w.phase.snapshot.tenantId, States(w.phase.snapshot))
      case None => w.(phase := Idle)
      case Some(p) => w.(platform := p, phase := Written(w.phase.snapshot))
  }

  function VerifyStep(w: World): World {
    if !w.phase.Written? then w
    else if HoldsAll(w.platform, w.phase.snapshot.tenantId, States(w.phase.snapshot)) then
      w.(phase := Checked(w.phase.snapshot))
    else w.(phase := Idle)
  }

  function ClearStep(w: World): World {
    if !w.phase.Checked? then w
    else if w.workspace.body != w.phase.snapshot.body then w.(phase := Idle)
    else
      match RemoveAll(w.workspace.rows, States(w.phase.snapshot))
      case None => w.(phase := Idle)
      case Some(rows) =>
        World(w.workspace.(rows := rows), w.platform, Idle, w.reports + [|States(w.phase.snapshot)|])
  }

  function Step(w: World, e: Event): World {
    match e
    case ReadBody => BodyStep(w)
    case ReadIdentity => IdentityStep(w)
    case ReadRows => RowsStep(w)
    case ReadRuntime => RuntimeStep(w)
    case Commit => CommitStep(w)
    case Verify => VerifyStep(w)
    case Clear => ClearStep(w)
    case Crash => w.(phase := Idle)
    case Foreign(next) => w.(workspace := next)
  }

  function Run(w: World, events: seq<Event>): World {
    if events == [] then w else Step(Run(w, events[..|events| - 1]), events[|events| - 1])
  }

  /** Foreign writers, too, are held to the primary key. */
  ghost predicate KeysRespected(events: seq<Event>) {
    forall i | 0 <= i < |events| && events[i].Foreign? :: KeyedByName(events[i].next.rows)
  }

  ghost predicate Safe(w: World) {
    && KeyedByName(w.workspace.rows)
    && (forall k :: InReadOrder(w.platform.ReadsAt(k)))
    && (HasSnapshot(w.phase) ==>
          KeyedByName(w.phase.snapshot.rows) && StatesOf(w.phase.snapshot.body, w.phase.snapshot.rows).Some?)
    && (w.phase.Checked? ==> HoldsAll(w.platform, w.phase.snapshot.tenantId, States(w.phase.snapshot)))
  }

  lemma StepKeepsSafe(w: World, e: Event)
    requires Safe(w) && (e.Foreign? ==> KeyedByName(e.next.rows))
    ensures Safe(Step(w, e))
    ensures Extends(Step(w, e).platform, w.platform)
  {
    if e == Commit {
      CommitKeepsSafe(w);
    } else if e == Clear {
      ClearKeepsSafe(w);
    }
  }

  lemma CommitKeepsSafe(w: World)
    requires Safe(w)
    ensures Safe(CommitStep(w)) && Extends(CommitStep(w).platform, w.platform)
  {
    if w.phase.Taken? {
      StatesOfDistinct(w.phase.snapshot.body, w.phase.snapshot.rows);
      MergeAllFacts(w.platform, w.phase.snapshot.tenantId, States(w.phase.snapshot));
      MergeAllKeepsOrder(w.platform, w.phase.snapshot.tenantId, States(w.phase.snapshot));
    }
  }

  lemma ClearKeepsSafe(w: World)
    requires Safe(w)
    ensures Safe(ClearStep(w)) && Extends(ClearStep(w).platform, w.platform)
  {
    if w.phase.Checked? {
      StatesOfDistinct(w.phase.snapshot.body, w.phase.snapshot.rows);
      RemoveAllFacts(w.workspace.rows, States(w.phase.snapshot));
    }
  }

  /** Over any run, Platform rows are only ever added, and each principal's reads stay in read order. */
  lemma {:induction false} RunKeepsRows(w: World, events: seq<Event>)
    requires Safe(w) && KeysRespected(events)
    ensures Safe(Run(w, events))
    ensures Extends(Run(w, events).platform, w.platform)
  {
    if events != [] {
      var front := events[..|events| - 1];
      RunKeepsRows(w, front);
      StepKeepsSafe(Run(w, front), events[|events| - 1]);
      ExtendsTransitive(w.platform, Run(w, front).platform, Run(w, events).platform);
    }
  }

  /** This old row's state is in the Platform store: the mode, revision 1, and, in order, exactly
      the translated read ids. */
  ghost predicate Migrated(p: Platform, tenantId: string, body: Body, row: ServiceRow) {
    && Acceptable(body, row)
    && var k := Key(tenantId, row.name.principalId);
       && k in p.preferences && ModeBecomes(row.body.mode, p.preferences[k].mode) && p.preferences[k].revision == 1
       && ReadIds.IsTranslation(ReadIds.LiveViews(body.workspace, k.principalId), row.body.read, Ids(p.ReadsAt(k)))
  }

  /** The migration changes the old store only by clearing checked states, all or none. */
  lemma OnlyClearingChanges(w: World, e: Event)
    requires !e.Foreign? && Step(w, e).workspace != w.workspace
    ensures w.phase.Checked? && w.phase.snapshot.body == w.workspace.body
    ensures
      var left := RemoveAll(w.workspace.rows, States(w.phase.snapshot));
      left.Some? && Step(w, e).workspace == w.workspace.(rows := left.value) && Step(w, e).platform == w.platform
  {
  }

  /** The rows of a snapshot's states are its notification rows. */
  lemma RowsOfStates(s: Snapshot, r: ServiceRow)
    requires StatesOf(s.body, s.rows).Some?
    ensures RowOfSome(States(s), r) <==> r in s.rows && !r.name.OtherService?
  {
    var states := States(s);
    StatesOfFacts(s.body, s.rows);
    if r in s.rows && !r.name.OtherService? {
      var i :| 0 <= i < |states| && states[i] == StateOf(s.body, r);
      assert states[i].row == r;
    }
    if RowOfSome(states, r) {
      var i :| 0 <= i < |states| && states[i].row == r;
      assert states[i] in states;
    }
  }

  /** A state that the target holds is the migrated row. */
  lemma HeldIsMigrated(p: Platform, s: Snapshot, r: ServiceRow)
    requires StatesOf(s.body, s.rows).Some? && HoldsAll(p, s.tenantId, States(s)) && r in s.rows && !r.name.OtherService?
    ensures Migrated(p, s.tenantId, s.body, r)
  {
    var states := States(s);
    StatesOfFacts(s.body, s.rows);
    var i :| 0 <= i < |states| && states[i] == StateOf(s.body, r);
    assert p.Holds(Key(s.tenantId, states[i].principalId), states[i]);
    AcceptedIsAcceptable(s.body, r);
  }

  /** Removing the rows of a snapshot's states removes exactly its notification rows. */
  lemma RemovesSnapshotRows(rows: seq<ServiceRow>, s: Snapshot)
    requires KeyedByName(s.rows) && StatesOf(s.body, s.rows).Some? && RemoveAll(rows, States(s)).Some?
    ensures forall r | r in s.rows && !r.name.OtherService? :: r in rows
    ensures forall r :: r in RemoveAll(rows, States(s)).value <==> r in rows && !(r in s.rows && !r.name.OtherService?)
  {
    var states := States(s);
    StatesOfDistinct(s.body, s.rows);
    RemoveAllFacts(rows, states);
    forall r ensures RowOfSome(states, r) <==> r in s.rows && !r.name.OtherService? {
      RowsOfStates(s, r);
    }
    forall r | r in s.rows && !r.name.OtherService? ensures r in rows {
      var i :| 0 <= i < |states| && states[i].row == r;
    }
  }

  /** Over any run of attempts, crashes, retries and foreign writes: when the migration changes the
      old store, the workspace text and every snapshot row are still what the states were computed
      from, the target holds each of them, and exactly the snapshot's notification rows go. */
  lemma ClearingIsSafe(w0: World, events: seq<Event>, e: Event)
    requires Safe(w0) && KeysRespected(events)
    requires !e.Foreign?
    requires Step(Run(w0, events), e).workspace != Run(w0, events).workspace
    ensures
      var w := Run(w0, events);
      var after := Step(w, e);
      && w.phase.Checked? && w.phase.snapshot.body == w.workspace.body
      && (forall r | r in w.phase.snapshot.rows && !r.name.OtherService? ::
            r in w.workspace.rows && Migrated(w.platform, w.phase.snapshot.tenantId, w.workspace.body, r))
      && (forall r :: r in after.workspace.rows <==>
            r in w.workspace.rows && !(r in w.phase.snapshot.rows && !r.name.OtherService?))
      && after.workspace.(rows := []) == w.workspace.(rows := []) && after.platform == w.platform
  {
    RunKeepsRows(w0, events);
    var w := Run(w0, events);
    OnlyClearingChanges(w, e);
    RemovesSnapshotRows(w.workspace.rows, w.phase.snapshot);
    forall r | r in w.phase.snapshot.rows && !r.name.OtherService?
      ensures Migrated(w.platform, w.phase.snapshot.tenantId, w.workspace.body, r)
    {
      HeldIsMigrated(w.platform, w.phase.snapshot, r);
    }
  }

  // ----- Convergence -----

  ghost predicate NobodyElseWrites(events: seq<Event>) {
    forall i | 0 <= i < |events| :: !events[i].Foreign?
  }

  /** Something to move, nothing in flight, and a target that takes every state. */
  ghost predicate Ready(w: World) {
    && w.phase.Idle? && KeyedByName(w.workspace.rows)
    && w.workspace.body.Valid? && StatesOf(w.workspace.body, w.workspace.rows).Some?
    && StatesOf(w.workspace.body, w.workspace.rows).value != []
    && !w.workspace.inFlight
    && TakesAll(w.platform, w.workspace.tenantId, StatesOf(w.workspace.body, w.workspace.rows).value)
  }

  ghost function SnapshotOf(w: World): Snapshot {
    Snapshot(w.workspace.body, w.workspace.rows, w.workspace.tenantId)
  }

  lemma ReadyFacts(w: World)
    requires KeyedByName(w.workspace.rows) && StatesOf(w.workspace.body, w.workspace.rows).Some?
    ensures
      var states := States(SnapshotOf(w));
      var merged := MergeAll(w.platform, w.workspace.tenantId, states);
      && (TakesAll(w.platform, w.workspace.tenantId, states) <==>
            merged.Some? && HoldsAll(merged.value, w.workspace.tenantId, states))
      && (TakesAll(w.platform, w.workspace.tenantId, states) ==> MergeAll(merged.value, w.workspace.tenantId, states) == merged)
      && RemoveAll(w.workspace.rows, states).Some?
      && StatesOf(w.workspace.body, RemoveAll(w.workspace.rows, states).value) == Some([])
  {
    var states := States(SnapshotOf(w));
    StatesOfDistinct(w.workspace.body, w.workspace.rows);
    StatesOfFacts(w.workspace.body, w.workspace.rows);
    MergeAllFacts(w.platform, w.workspace.tenantId, states);
    var merged := MergeAll(w.platform, w.workspace.tenantId, states);
    if TakesAll(w.platform, w.workspace.tenantId, states) {
      MergeAllTwice(merged.value, w.workspace.tenantId, states);
    }
    forall i | 0 <= i < |states| ensures states[i].row in w.workspace.rows {
      assert states[i] in states;
    }
    RemoveAllFacts(w.workspace.rows, states);
    var left := RemoveAll(w.workspace.rows, states).value;
    forall r | r in w.workspace.rows && !r.name.OtherService? ensures RowOfSome(states, r) {
      var i :| 0 <= i < |states| && states[i] == StateOf(w.workspace.body, r);
      assert states[i].row == r;
    }
    OnlyOthersLeft(w.workspace.body, left);
  }

  lemma {:induction false} OnlyOthersLeft(body: Body, rows: seq<ServiceRow>)
    requires forall r | r in rows :: r.name.OtherService?
    ensures StatesOf(body, rows) == Some([])
  {
    if rows != [] {
      OnlyOthersLeft(body, rows[..|rows| - 1]);
      assert rows[|rows| - 1] in rows;
    }
  }

  function Zeros(n: nat): seq<nat> {
    seq(n, _ => 0)
  }

  ghost predicate OnTheWay(w0: World, w: World) {
    var tenantId, states := w0.workspace.tenantId, States(SnapshotOf(w0));
    var merged, left := MergeAll(w0.platform, tenantId, states), RemoveAll(w0.workspace.rows, states);
    && merged.Some? && left.Some?
    && (w.platform == w0.platform || w.platform == merged.value)
    && (w.workspace == w0.workspace ==> w.reports == w0.reports)
    && (w.phase.HasBody? || w.phase.HasIdentity? ==> w.phase.body == w0.workspace.body)
    && (w.phase.HasIdentity? ==> w.phase.tenantId == tenantId)
    && (HasSnapshot(w.phase) ==> w.phase.snapshot == SnapshotOf(w0) && w.workspace == w0.workspace)
    && (w.phase.Written? || w.phase.Checked? ==> w.platform == merged.value)
    && (w.workspace != w0.workspace ==>
          && w.workspace == w0.workspace.(rows := left.value) && w.platform == merged.value
          && exists n: nat :: w.reports == w0.reports + [|states|] + Zeros(n))
  }

  /** Three queries, the check and a crash only move the attempt along. */
  lemma BodyStaysOnTheWay(w0: World, w: World)
    requires Ready(w0) && OnTheWay(w0, w)
    ensures OnTheWay(w0, BodyStep(w))
  {
  }

  lemma IdentityStaysOnTheWay(w0: World, w: World)
    requires Ready(w0) && OnTheWay(w0, w)
    ensures OnTheWay(w0, IdentityStep(w))
  {
  }

  lemma RuntimeStaysOnTheWay(w0: World, w: World)
    requires Ready(w0) && OnTheWay(w0, w)
    ensures OnTheWay(w0, RuntimeStep(w)) && OnTheWay(w0, w.(phase := Idle))
  {
  }

  lemma VerifyStaysOnTheWay(w0: World, w: World)
    requires Ready(w0) && OnTheWay(w0, w)
    ensures OnTheWay(w0, VerifyStep(w))
  {
  }

  lemma RowsStaysOnTheWay(w0: World, w: World)
    requires Ready(w0) && OnTheWay(w0, w)
    ensures OnTheWay(w0, RowsStep(w))
  {
    var states := States(SnapshotOf(w0));
    ReadyFacts(w0);
    if w.phase.HasIdentity? && w.workspace != w0.workspace {
      var n: nat :| w.reports == w0.reports + [|states|] + Zeros(n);
      assert RowsStep(w).reports == w0.reports + [|states|] + Zeros(n + 1);
    }
  }

  lemma CommitStaysOnTheWay(w0: World, w: World)
    requires Ready(w0) && OnTheWay(w0, w)
    ensures OnTheWay(w0, CommitStep(w))
  {
    ReadyFacts(w0);
  }

  lemma ClearStaysOnTheWay(w0: World, w: World)
    requires Ready(w0) && OnTheWay(w0, w)
    ensures OnTheWay(w0, ClearStep(w))
  {
    var states := States(SnapshotOf(w0));
    ReadyFacts(w0);
    assert w0.reports + [|states|] == w0.reports + [|states|] + Zeros(0);
  }

  lemma StepStaysOnTheWay(w0: World, w: World, e: Event)
    requires Ready(w0) && OnTheWay(w0, w) && !e.Foreign?
    ensures OnTheWay(w0, Step(w, e))
  {
    match e {
      case ReadRows => RowsStaysOnTheWay(w0, w);
      case Commit => CommitStaysOnTheWay(w0, w);
      case Clear => ClearStaysOnTheWay(w0, w);
      case ReadBody => BodyStaysOnTheWay(w0, w);
      case ReadIdentity => IdentityStaysOnTheWay(w0, w);
      case Verify => VerifyStaysOnTheWay(w0, w);
      case _ => RuntimeStaysOnTheWay(w0, w);
    }
  }

  lemma {:induction false} RunStaysOnTheWay(w0: World, events: seq<Event>)
    requires Ready(w0) && NobodyElseWrites(events)
    ensures OnTheWay(w0, Run(w0, events))
  {
    if events == [] {
      ReadyFacts(w0);
    } else {
      var front := events[..|events| - 1];
      RunStaysOnTheWay(w0, front);
      StepStaysOnTheWay(w0, Run(w0, front), events[|events| - 1]);
    }
  }

  /** The four reads with nobody in between. */
  function BeginStep(w: World): World
    requires w.phase.Idle?
  {
    var states := StatesOf(w.workspace.body, w.workspace.rows);
    if !w.workspace.body.Valid? || states.None? then w
    else if states.value == [] then w.(reports := w.reports + [0])
    else if w.workspace.inFlight then w
    else w.(phase := Taken(Snapshot(w.workspace.body, w.workspace.rows, w.workspace.tenantId)))
  }

  lemma ReadsTogether(w: World)
    requires w.phase.Idle?
    ensures RuntimeStep(RowsStep(IdentityStep(BodyStep(w)))) == BeginStep(w)
  {
    if w.workspace.body.Valid? {
      assert IdentityStep(BodyStep(w)) == w.(phase := HasIdentity(w.workspace.body, w.workspace.tenantId));
    }
  }

  lemma RunThree(w: World, a: Event, b: Event, c: Event)
    ensures Run(w, [a, b, c]) == Step(Step(Step(w, a), b), c)
  {
    var abc, ab, one := [a, b, c], [a, b], [a];
    assert abc[..2] == ab && ab[..1] == one && one[..0] == [];
    assert Run(w, one) == Step(w, a);
    assert Run(w, ab) == Step(Run(w, one), b);
  }

  lemma RunOfReads(w: World)
    requires w.phase.Idle?
    ensures Run(w, [ReadBody, ReadIdentity, ReadRows, ReadRuntime]) == BeginStep(w)
  {
    var queries := [ReadBody, ReadIdentity, ReadRows, ReadRuntime];
    assert queries[..3] == [ReadBody, ReadIdentity, ReadRows];
    RunThree(w, ReadBody, ReadIdentity, ReadRows);
    ReadsTogether(w);
  }

  lemma RunOfAttempt(w: World)
    requires w.phase.Idle?
    ensures Run(w, ATTEMPT) == ClearStep(VerifyStep(CommitStep(BeginStep(w))))
  {
    var queries, changes := [ReadBody, ReadIdentity, ReadRows, ReadRuntime], [Commit, Verify, Clear];
    assert ATTEMPT == queries + changes;
    assert Run(w, ATTEMPT) == Run(Run(w, queries), changes) by {
      RunConcat(w, queries, changes);
    }
    assert Run(w, queries) == BeginStep(w) by {
      RunOfReads(w);
    }
    RunThree(BeginStep(w), Commit, Verify, Clear);
  }

  lemma {:induction false} RunConcat(w: World, a: seq<Event>, b: seq<Event>)
    ensures Run(w, a + b) == Run(Run(w, a), b)
  {
    if b == [] {
      assert a + b == a;
    } else {
      RunConcat(w, a, b[..|b| - 1]);
      assert (a + b)[..|a + b| - 1] == a + b[..|b| - 1];
    }
  }

  lemma AttemptFinishes(w0: World, w: World)
    requires Ready(w0) && OnTheWay(w0, w) && w.phase.Idle?
    ensures
      var done, states := Run(w, ATTEMPT), States(SnapshotOf(w0));
      && MergeAll(w0.platform, w0.workspace.tenantId, states) == Some(done.platform)
      && RemoveAll(w0.workspace.rows, states) == Some(done.workspace.rows)
      && done.workspace == w0.workspace.(rows := done.workspace.rows)
  {
    ReadyFacts(w0);
    RunOfAttempt(w);
  }

  /** An undisturbed attempt removes the old rows exactly when it was ready to. In particular stray
      read rows, or any other preference, of a principal to be migrated keep every old row. */
  lemma AttemptClearsIffReady(w: World)
    requires w.phase.Idle? && KeyedByName(w.workspace.rows)
    ensures Run(w, ATTEMPT).workspace != w.workspace <==> Ready(w)
  {
    RunOfAttempt(w);
    if w.workspace.body.Valid? && StatesOf(w.workspace.body, w.workspace.rows).Some? {
      ReadyFacts(w);
    }
  }

  lemma {:induction false} MergeAllRegisters(p: Platform, tenantId: string, states: seq<State>)
    requires OnePerPrincipal(states) && MergeAll(p, tenantId, states).Some?
    ensures forall i | 0 <= i < |states| :: Key(tenantId, states[i].principalId) in MergeAll(p, tenantId, states).value.preferences
    decreases |states|
  {
    if states != [] {
      MergeOneFacts(p, tenantId, states[0]);
      var next := MergeOne(p, tenantId, states[0]).value;
      MergeAllRegisters(next, tenantId, states[1..]);
      MergeAllFacts(next, tenantId, states[1..]);
      assert forall i | 1 <= i < |states| :: states[i] == states[1..][i - 1];
    }
  }

  /** Where attempts that are not ready can be. */
  ghost predicate Stuck(w0: World, w: World)
    requires w0.phase.Idle?
  {
    var states, tenantId := States(SnapshotOf(w0)), w0.workspace.tenantId;
    && w.workspace == w0.workspace && !w.phase.Checked?
    && (w.phase.HasBody? || w.phase.HasIdentity? ==> w0.workspace.body.Valid? && w.phase.body == w0.workspace.body)
    && (w.phase.HasIdentity? ==> w.phase.tenantId == tenantId)
    && (HasSnapshot(w.phase) ==> w.phase.snapshot == SnapshotOf(w0) && w0.workspace.body.Valid?)
    && (HasSnapshot(w.phase) ==> StatesOf(w0.workspace.body, w0.workspace.rows).Some? && states != [])
    && (w.phase.Taken? || w.phase.Written? ==> BeginStep(w0).phase.Taken?)
    && (BeginStep(w0).phase.Taken? ==> !TakesAll(w.platform, tenantId, states))
    && (w.phase.Written? ==> !HoldsAll(w.platform, tenantId, states))
  }

  lemma StepStaysStuck(w0: World, w: World, e: Event)
    requires w0.phase.Idle? && KeyedByName(w0.workspace.rows) && !Ready(w0) && Stuck(w0, w) && !e.Foreign?
    ensures Stuck(w0, Step(w, e))
  {
    var states, tenantId := States(SnapshotOf(w0)), w0.workspace.tenantId;
    if e == Commit && w.phase.Taken? && MergeAll(w.platform, tenantId, states).Some? {
      StatesOfDistinct(w0.workspace.body, w0.workspace.rows);
      MergeAllFacts(w.platform, tenantId, states);
      MergeAllRegisters(w.platform, tenantId, states);
    }
  }

  /** With nobody else writing, a cutover that is not ready never removes a row, however often it is
      retried: a refused target, such as one with stray read rows, stays refused. */
  lemma {:induction false} NotReadyNeverClears(w0: World, events: seq<Event>)
    requires w0.phase.Idle? && KeyedByName(w0.workspace.rows) && !Ready(w0) && NobodyElseWrites(events)
    ensures Stuck(w0, Run(w0, events))
  {
    if events != [] {
      NotReadyNeverClears(w0, events[..|events| - 1]);
      StepStaysStuck(w0, Run(w0, events[..|events| - 1]), events[|events| - 1]);
    }
  }

  lemma SameEnd(w0: World, w: World)
    requires Ready(w0) && OnTheWay(w0, w) && w.phase.Idle?
    ensures Run(w, ATTEMPT).workspace == Run(w0, ATTEMPT).workspace
    ensures Run(w, ATTEMPT).platform == Run(w0, ATTEMPT).platform
  {
    AttemptFinishes(w0, w);
    assert Run(w0, []) == w0;
    RunStaysOnTheWay(w0, []);
    AttemptFinishes(w0, w0);
  }

  /** The rows of `left` are those of `rows` that are no notification state. */
  ghost predicate OthersStay(rows: seq<ServiceRow>, left: seq<ServiceRow>) {
    forall r :: r in left <==> r in rows && r.name.OtherService?
  }

  /** Every notification row of the old store is migrated in this target. */
  ghost predicate AllMigrated(source: OldStore, p: Platform) {
    forall r | r in source.rows && !r.name.OtherService? :: Migrated(p, source.tenantId, source.body, r)
  }

  lemma OnceIsMigrated(w0: World)
    requires Ready(w0)
    ensures
      var once := Run(w0, ATTEMPT);
      && AllMigrated(w0.workspace, once.platform)
      && once.workspace == w0.workspace.(rows := once.workspace.rows) && OthersStay(w0.workspace.rows, once.workspace.rows)
      && once.phase.Idle?
  {
    assert Run(w0, []) == w0;
    RunStaysOnTheWay(w0, []);
    AttemptFinishes(w0, w0);
    ReadyFacts(w0);
    RunOfAttempt(w0);
    RemovesSnapshotRows(w0.workspace.rows, SnapshotOf(w0));
    forall r | r in w0.workspace.rows && !r.name.OtherService?
      ensures Migrated(Run(w0, ATTEMPT).platform, w0.workspace.tenantId, w0.workspace.body, r)
    {
      HeldIsMigrated(Run(w0, ATTEMPT).platform, SnapshotOf(w0), r);
    }
  }

  /** The rows are removed by the clearing after `before` and reported then; every later report is one of 0
      for each attempt that gets to read the rows. */
  ghost predicate ReportedOnce(w0: World, events: seq<Event>, before: seq<Event>, later: seq<Event>) {
    && events == before + [Clear] + later && Run(w0, before).workspace == w0.workspace
    && Run(w0, before).reports == w0.reports && ClearStep(Run(w0, before)).workspace != w0.workspace
    && exists at :: Picks(w0.workspace.rows, NOTIFIES, at) &&
                    Run(w0, events).reports == w0.reports + [|at|] + Zeros(ReadingAfter(later).finished)
  }

  lemma OnlyClearEvent(w: World, e: Event)
    requires !e.Foreign? && Step(w, e).workspace != w.workspace
    ensures e == Clear && Step(w, e) == ClearStep(w)
  {
  }

  /** After `before` the clearing is the first event to change the old workspace, and `later` follows. */
  ghost predicate ClearsFirst(w0: World, events: seq<Event>, before: seq<Event>, later: seq<Event>) {
    && events == before + [Clear] + later && Run(w0, before).workspace == w0.workspace
    && ClearStep(Run(w0, before)).workspace != w0.workspace && Run(w0, events) == Run(ClearStep(Run(w0, before)), later)
  }

  lemma ClearsFirstStill(w0: World, events: seq<Event>, before: seq<Event>, later: seq<Event>, e: Event)
    requires ClearsFirst(w0, events, before, later)
    ensures ClearsFirst(w0, events + [e], before, later + [e])
  {
    RunNext(w0, events, e);
    RunNext(ClearStep(Run(w0, before)), later, e);
    assert events + [e] == before + [Clear] + (later + [e]);
  }

  lemma RunNext(w: World, events: seq<Event>, e: Event)
    ensures Run(w, events + [e]) == Step(Run(w, events), e)
  {
    assert (events + [e])[..|events|] == events;
  }

  /** The first event that changes the old workspace is a clearing, and the run goes on from there. */
  lemma {:induction false} FirstClearing(w0: World, events: seq<Event>) returns (before: seq<Event>, later: seq<Event>)
    requires NobodyElseWrites(events) && Run(w0, events).workspace != w0.workspace
    ensures ClearsFirst(w0, events, before, later) && NobodyElseWrites(before) && NobodyElseWrites(later)
  {
    var n := |events| - 1;
    var front := events[..n];
    if Run(w0, front).workspace == w0.workspace {
      OnlyClearEvent(Run(w0, front), events[n]);
      assert events == front + [Clear] + [];
      return front, [];
    }
    before, later := FirstClearing(w0, front);
    ClearsFirstStill(w0, front, before, later, events[n]);
    assert front + [events[n]] == events;
    later := later + [events[n]];
  }

  lemma ClearedIsSettled(w0: World, w: World)
    requires Ready(w0) && OnTheWay(w0, w) && w.workspace == w0.workspace && ClearStep(w).workspace != w0.workspace
    ensures
      var cleared := ClearStep(w);
      && cleared.phase.Idle? && cleared.workspace.body.Valid? && (forall r | r in cleared.workspace.rows :: r.name.OtherService?)
      && cleared.reports == w0.reports + [|States(SnapshotOf(w0))|] && w.reports == w0.reports
  {
    ReadyFacts(w0);
    RemovesSnapshotRows(w0.workspace.rows, SnapshotOf(w0));
  }

  lemma ClearedReportsOnce(w0: World, events: seq<Event>) returns (before: seq<Event>, later: seq<Event>)
    requires Ready(w0) && NobodyElseWrites(events) && Run(w0, events).workspace != w0.workspace
    ensures ReportedOnce(w0, events, before, later)
  {
    before, later := FirstClearing(w0, events);
    RunStaysOnTheWay(w0, before);
    ClearedIsSettled(w0, Run(w0, before));
    SettledStaysSettled(ClearStep(Run(w0, before)), later);
    var at := StatesOfExact(w0.workspace.body, w0.workspace.rows);
  }

  /** Attempts broken off anywhere, then one completed attempt, reach the stores of one
      uninterrupted attempt: every notification row is migrated and gone, and reported once. */
  lemma Convergence(w0: World, events: seq<Event>)
    requires Ready(w0) && NobodyElseWrites(events)
    ensures
      var retried, once := Run(w0, events + [Crash] + ATTEMPT), Run(w0, ATTEMPT);
      && retried.workspace == once.workspace && retried.platform == once.platform
      && AllMigrated(w0.workspace, once.platform)
      && once.workspace == w0.workspace.(rows := once.workspace.rows) && OthersStay(w0.workspace.rows, once.workspace.rows)
      && exists before, later :: ReportedOnce(w0, events + [Crash] + ATTEMPT, before, later)
  {
    RetryEndsAlike(w0, events);
    OnceIsMigrated(w0);
    AttemptClearsIffReady(w0);
    var before, later := ClearedReportsOnce(w0, events + [Crash] + ATTEMPT);
  }

  lemma RetryEndsAlike(w0: World, events: seq<Event>)
    requires Ready(w0) && NobodyElseWrites(events)
    ensures
      var retried, once := Run(w0, events + [Crash] + ATTEMPT), Run(w0, ATTEMPT);
      retried.workspace == once.workspace && retried.platform == once.platform
  {
    var broken := events + [Crash];
    RunNext(w0, events, Crash);
    RunStaysOnTheWay(w0, broken);
    RunConcat(w0, broken, ATTEMPT);
    SameEnd(w0, Run(w0, broken));
  }

  lemma NothingToMove(rows: seq<ServiceRow>, at: seq<nat>)
    requires Picks(rows, NOTIFIES, at)
    ensures at == [] <==> forall r | r in rows :: r.name.OtherService?
  {
    if r :| r in rows && !r.name.OtherService? {
      var i: nat :| i < |rows| && rows[i] == r;
      assert NOTIFIES(rows[i]);
    }
    if at != [] {
      assert NOTIFIES(rows[at[0]]);
    }
  }

  predicate Reported(later: seq<nat>, reports: seq<nat>, result: Option<nat>) {
    later == reports + if result.Some? then [result.value] else []
  }

  /** The result of an undisturbed attempt: 0 exactly when there is no notification row, their number
      exactly when the attempt was ready, and otherwise it throws. */
  ghost predicate ResultIs(workspace: OldStore, platform: Platform, result: Option<nat>) {
    && (result == Some(0) <==> workspace.body.Valid? && forall r | r in workspace.rows :: r.name.OtherService?)
    && (KeyedByName(workspace.rows) ==>
          (result.Some? && result.value > 0 <==> Ready(World(workspace, platform, Idle, []))))
    && (result.Some? ==> exists at :: Picks(workspace.rows, NOTIFIES, at) && |at| == result.value)
  }

  lemma AttemptResult(w: World, result: Option<nat>)
    requires w.phase.Idle? && Reported(Run(w, ATTEMPT).reports, w.reports, result)
    ensures ResultIs(w.workspace, w.platform, result)
  {
    var at := StatesOfExact(w.workspace.body, w.workspace.rows);
    NothingToMove(w.workspace.rows, at);
    ReportIsClearing(w, result);
    if KeyedByName(w.workspace.rows) {
      AttemptClearsIffReady(w);
      assert Ready(w) <==> Ready(World(w.workspace, w.platform, Idle, []));
      if w.workspace.body.Valid? && StatesOf(w.workspace.body, w.workspace.rows).Some? {
        ReadyFacts(w);
      }
    }
  }

  /** An undisturbed attempt reports the number of its states, and only when there were none or when it
      removed all their rows. */
  lemma ReportIsClearing(w: World, result: Option<nat>)
    requires w.phase.Idle? && Reported(Run(w, ATTEMPT).reports, w.reports, result)
    ensures
      var end, states := Run(w, ATTEMPT), StatesOf(w.workspace.body, w.workspace.rows);
      && (result.None? ==> end.workspace == w.workspace)
      && (result == Some(0) <==> w.workspace.body.Valid? && states == Some([]))
      && (result.Some? ==> w.workspace.body.Valid? && states.Some? && result.value == |states.value|)
      && (result.Some? && result.value > 0 ==> RemoveAll(w.workspace.rows, states.value) == Some(end.workspace.rows))
      && (result == Some(0) ==> end.workspace == w.workspace)
  {
    RunOfAttempt(w);
    var end := Run(w, ATTEMPT);
    OneReport(end.reports, w.reports, result);
  }

  lemma OneReport(later: seq<nat>, reports: seq<nat>, result: Option<nat>)
    requires Reported(later, reports, result)
    ensures result.None? <==> later == reports
    ensures forall n: nat :: result == Some(n) <==> later == reports + [n]
  {
    forall n: nat | later == reports + [n] ensures result == Some(n) {
      assert later[|reports|] == n;
    }
  }

  // ----- Attempts that find nothing -----

  /** How far the reads have come, and how many times they got to the rows: body, identity and rows in this
      order, a crash starting over. */
  datatype Reading = Reading(stage: nat, finished: nat)

  function ReadingNext(r: Reading, e: Event): Reading {
    match e
    case ReadBody => if r.stage == 0 then Reading(1, r.finished) else r
    case ReadIdentity => if r.stage == 1 then Reading(2, r.finished) else r
    case ReadRows => if r.stage == 2 then Reading(0, r.finished + 1) else r
    case Crash => Reading(0, r.finished)
    case _ => r
  }

  function ReadingAfter(events: seq<Event>): Reading {
    if events == [] then Reading(0, 0) else ReadingNext(ReadingAfter(events[..|events| - 1]), events[|events| - 1])
  }

  /** Where attempts without a notification row are. */
  ghost predicate Settled(w: World, later: World, r: Reading) {
    && later.workspace == w.workspace && later.platform == w.platform && r.stage <= 2
    && later.phase == (if r.stage == 0 then Idle else if r.stage == 1 then HasBody(w.workspace.body)
                       else HasIdentity(w.workspace.body, w.workspace.tenantId))
    && later.reports == w.reports + Zeros(r.finished)
  }

  lemma SettledStep(w: World, later: World, r: Reading, e: Event)
    requires w.workspace.body.Valid? && (forall row | row in w.workspace.rows :: row.name.OtherService?) && !e.Foreign?
    requires Settled(w, later, r)
    ensures Settled(w, Step(later, e), ReadingNext(r, e))
  {
    OnlyOthersLeft(w.workspace.body, w.workspace.rows);
    assert w.reports + Zeros(r.finished) + [0] == w.reports + Zeros(r.finished + 1);
  }

  /** Once no notification row is left, later attempts change neither store, and each that gets to read the
      rows reports 0. */
  lemma {:induction false} SettledStaysSettled(w: World, events: seq<Event>)
    requires w.phase.Idle? && w.workspace.body.Valid? && forall r | r in w.workspace.rows :: r.name.OtherService?
    requires NobodyElseWrites(events)
    ensures Settled(w, Run(w, events), ReadingAfter(events))
  {
    if events == [] {
      assert w.reports == w.reports + Zeros(0);
    } else {
      var front := events[..|events| - 1];
      SettledStaysSettled(w, front);
      SettledStep(w, Run(w, front), ReadingAfter(front), events[|events| - 1]);
    }
  }

  // ----- The script's own loops and transactions -----

  class Databases {
    var workspace: OldStore
    var platform: Platform

    constructor (workspace: OldStore, platform: Platform)
      ensures this.workspace == workspace && this.platform == platform
    {
      this.workspace := workspace;
      this.platform := platform;
    }

    /** Map the notification rows to their migrated states, or throw. */
    method CollectStates() returns (states: Option<seq<State>>, ghost at: seq<nat>)
      ensures states == if workspace.body.Valid? then StatesOf(workspace.body, workspace.rows) else None
      ensures states.Some? <==>
        workspace.body.Valid? && forall r | r in workspace.rows && !r.name.OtherService? :: Acceptable(workspace.body, r)
      ensures Picks(workspace.rows, NOTIFIES, at) && (states.Some? ==> StatesAt(workspace.body, workspace.rows, at, states.value))
    {
      at := StatesOfExact(workspace.body, workspace.rows);
      if !workspace.body.Valid? {
        return None, at;
      }
      var collected: seq<State> := [];
      var failed := false;
      for i := 0 to |workspace.rows|
        invariant StatesOf(workspace.body, workspace.rows[..i]) == if failed then None else Some(collected)
      {
        var row := workspace.rows[i];
        assert workspace.rows[..i + 1][..i] == workspace.rows[..i];
        if !failed && !row.name.OtherService? {
          if !RowAccepted(workspace.body, row) {
            failed := true;
          } else {
            var translated := ReadIds.CurrentReadIds(workspace.body.workspace, row.name.principalId, row.body.read);
            collected := collected + [State(row, row.name.principalId, NewMode(row.body.mode), translated)];
          }
        }
      }
      assert workspace.rows[..|workspace.rows|] == workspace.rows;
      return if failed then None else Some(collected), at;
    }

    /** BEGIN IMMEDIATE, the loop over states with its inner read loop, COMMIT or ROLLBACK. */
    method CommitPlatform(tenantId: string, states: seq<State>) returns (committed: bool)
      modifies this`platform
      ensures committed <==> MergeAll(old(platform), tenantId, states).Some?
      ensures committed ==> MergeAll(old(platform), tenantId, states) == Some(platform)
      ensures !committed ==> platform == old(platform)
    {
      var tx := platform;
      for i := 0 to |states|
        invariant MergeAll(old(platform), tenantId, states) == MergeAll(tx, tenantId, states[i..])
        invariant platform == old(platform)
      {
        var s := states[i];
        var k := Key(tenantId, s.principalId);
        if k in tx.preferences {
          if !tx.Holds(k, s) {
            return false;
          }
        } else {
          var marks := tx.ReadsAt(k);
          for j := 0 to |s.read|
            invariant InsertReads(tx.ReadsAt(k), s.read, 0) == InsertReads(marks, s.read, j)
          {
            var inserted := InsertRead(marks, Read(j + 1, s.read[j]));
            if inserted.None? {
              return false;
            }
            marks := inserted.value;
          }
          tx := Platform(tx.preferences[k := Preference(s.mode, 1)], tx.marks[k := marks]);
        }
      }
      platform := tx;
      return true;
    }

    /** The fresh read-only pass over the Platform store. */
    method VerifyPlatform(tenantId: string, states: seq<State>) returns (ok: bool)
      ensures ok <==> HoldsAll(platform, tenantId, states)
    {
      for i := 0 to |states|
        invariant forall j | 0 <= j < i :: platform.Holds(Key(tenantId, states[j].principalId), states[j])
      {
        if !platform.Holds(Key(tenantId, states[i].principalId), states[i]) {
          return false;
        }
      }
      return true;
    }

    /** Compare the workspace text, then delete each row by name and body; a miss rolls back. */
    method CompareAndRemove(originalWorkspace: Body, states: seq<State>) returns (removed: bool)
      modifies this`workspace
      ensures removed <==> old(workspace).body == originalWorkspace && RemoveAll(old(workspace).rows, states).Some?
      ensures removed ==> workspace == old(workspace).(rows := RemoveAll(old(workspace).rows, states).value)
      ensures !removed ==> workspace == old(workspace)
    {
      if workspace.body != originalWorkspace {
        return false;
      }
      var tx := workspace.rows;
      for i := 0 to |states|
        invariant RemoveAll(workspace.rows, states) == RemoveAll(tx, states[i..])
        invariant workspace == old(workspace)
      {
        if states[i].row !in tx {
          return false;
        }
        tx := Without(tx, states[i].row);
      }
      workspace := workspace.(rows := tx);
      return true;
    }

    /** One attempt from start to end, with nobody else writing: exactly the seven events. */
    method MigrateOnce(ghost reports: seq<nat>) returns (migrated: Option<nat>)
      modifies this
      ensures
        var end := Run(World(old(workspace), old(platform), Idle, reports), ATTEMPT);
        && workspace == end.workspace && platform == end.platform
        && Reported(end.reports, reports, migrated)
      ensures ResultIs(old(workspace), old(platform), migrated)
    {
      forall result | Reported(Run(World(workspace, platform, Idle, reports), ATTEMPT).reports, reports, result)
        ensures ResultIs(workspace, platform, result)
      {
        AttemptResult(World(workspace, platform, Idle, reports), result);
      }
      RunOfAttempt(World(workspace, platform, Idle, reports));
      var original, tenantId := workspace.body, workspace.tenantId;
      var states;
      ghost var at;
      states, at := CollectStates();
      if states.None? {
        return None;
      }
      if states.value == [] {
        return Some(0);
      }
      if workspace.inFlight {
        return None;
      }
      var committed := CommitPlatform(tenantId, states.value);
      if !committed {
        return None;
      }
      var verified := VerifyPlatform(tenantId, states.value);
      if !verified {
        return None;
      }
      var removed := CompareAndRemove(original, states.value);
      if !removed {
        return None;
      }
      return Some(|states.value|);
    }
  }
}

/**
 The rendered license bundle: packages in order, each text once under its own label, and an index
 from packages to texts and from texts to packages that agree.
 */
module LicenseBundle {
  import opened Prelude
  import opened Licenses
  import opened Numerals
  import Orders

  // ----- The order of packages -----

  const PATH_LE: (FilePath, FilePath) -> bool := (a, b) => Orders.LexLe(Orders.TEXT_LE, a, b)

  /** The tuple (name, version, expression, paths), as a list that compares the same way. */
  function KeyOf(e: Entry): seq<FilePath> {
    [[e.name], [e.version], [e.expression]] + e.paths
  }

  const ENTRY_LE: (Entry, Entry) -> bool := (a, b) => Orders.LexLe(PATH_LE, KeyOf(a), KeyOf(b))

  lemma KeyIsInjective(a: Entry, b: Entry)
    requires KeyOf(a) == KeyOf(b)
    ensures a == b
  {
    var x, y := KeyOf(a), KeyOf(b);
    assert x[0] == y[0] && x[1] == y[1] && x[2] == y[2];
    assert x[0][0] == y[0][0] && x[1][0] == y[1][0] && x[2][0] == y[2][0];
    assert x[3..] == a.paths && y[3..] == b.paths;
  }

  /** In Python's order of texts. */
  ghost predicate TextBefore(a: string, b: string) {
    exists k: nat | k <= |a| && k <= |b| :: a[..k] == b[..k] && (k == |a| || (k < |b| && a[k] < b[k]))
  }

  /** By name, then by version, then by declared license, then by license files. */
  ghost predicate EntryBefore(a: Entry, b: Entry) {
    if a.name != b.name then TextBefore(a.name, b.name)
    else if a.version != b.version then TextBefore(a.version, b.version)
    else if a.expression != b.expression then TextBefore(a.expression, b.expression)
    else Orders.LexLe(PATH_LE, a.paths, b.paths)
  }

  lemma TextBeforeExact(a: string, b: string)
    ensures Orders.TEXT_LE(a, b) <==> TextBefore(a, b)
  {
    Orders.LexExact(Orders.CHAR_LE, a, b);
    if Orders.TEXT_LE(a, b) {
      var k: nat :| Orders.FirstDiffersAt(Orders.CHAR_LE, a, b, k);
      assert a[..k] == b[..k];
    }
    if k: nat :| k <= |a| && k <= |b| && a[..k] == b[..k] && (k == |a| || (k < |b| && a[k] < b[k])) {
      assert Orders.FirstDiffersAt(Orders.CHAR_LE, a, b, k);
    }
  }

  lemma OneTextBefore(x: string, y: string)
    ensures PATH_LE([x], [y]) <==> x == y || TextBefore(x, y)
  {
    TextBeforeExact(x, y);
    Orders.LexCons(Orders.TEXT_LE, x, [], y, []);
    assert [x] + [] == [x] && [y] + [] == [y];
  }

  /** One component of the key decides, unless it is the same. */
  lemma KeyCons(x: string, s: seq<FilePath>, y: string, t: seq<FilePath>)
    ensures Orders.LexLe(PATH_LE, [[x]] + s, [[y]] + t) <==> if x == y then Orders.LexLe(PATH_LE, s, t) else TextBefore(x, y)
  {
    Orders.LexCons(PATH_LE, [x], s, [y], t);
    OneTextBefore(x, y);
    assert [x] == [y] <==> [x][0] == [y][0];
  }

  lemma EntryOrderExact(a: Entry, b: Entry)
    ensures ENTRY_LE(a, b) <==> EntryBefore(a, b)
  {
    var x, y := [[a.expression]] + a.paths, [[b.expression]] + b.paths;
    KeyCons(a.expression, a.paths, b.expression, b.paths);
    KeyCons(a.version, x, b.version, y);
    KeyCons(a.name, [[a.version]] + x, b.name, [[b.version]] + y);
    assert KeyOf(a) == [[a.name]] + ([[a.version]] + x) && KeyOf(b) == [[b.name]] + ([[b.version]] + y);
  }

  lemma EntryOrderIsTotal()
    ensures Orders.TotalOrder(ENTRY_LE)
  {
    Orders.TextIsTotalOrder();
    Orders.LexIsTotalOrder(Orders.TEXT_LE);
    assert Orders.TotalOrder(PATH_LE);
    forall a, b ensures ENTRY_LE(a, b) || ENTRY_LE(b, a) {
      Orders.LexIsTotal(PATH_LE, KeyOf(a), KeyOf(b));
    }
    forall a, b | ENTRY_LE(a, b) && ENTRY_LE(b, a) ensures a == b {
      Orders.LexIsAntisymmetric(PATH_LE, KeyOf(a), KeyOf(b));
      KeyIsInjective(a, b);
    }
    forall a, b, c | ENTRY_LE(a, b) && ENTRY_LE(b, c) ensures ENTRY_LE(a, c) {
      Orders.LexIsTransitive(PATH_LE, KeyOf(a), KeyOf(b), KeyOf(c));
    }
  }

  // ----- Labels -----

  function Pad3(s: string): string {
    if |s| == 0 then "000" else if |s| == 1 then "00" + s else if |s| == 2 then "0" + s else s
  }

  /** `f"L{n:03d}"`. */
  function Label(n: nat): string {
    "L" + Pad3(Decimal(n))
  }

  lemma {:induction false} ZeroInFront(s: string)
    ensures Value("0" + s) == Value(s)
  {
    if s == "" {
      assert "0" + s == "0" && "0"[..0] == "";
    } else {
      ZeroInFront(s[..|s| - 1]);
      assert ("0" + s)[..|s|] == "0" + s[..|s| - 1];
    }
  }

  lemma PaddedValue(s: string)
    ensures Value(Pad3(s)) == Value(s)
  {
    ZeroInFront(s);
    ZeroInFront("0" + s);
    ZeroInFront("0" + ("0" + s));
    assert "00" + s == "0" + ("0" + s);
    if |s| == 0 {
      assert "000" == "0" + ("0" + ("0" + s));
    }
  }

  lemma {:induction false} DecimalDigits(n: nat)
    ensures Decimal(n) != "" && forall i | 0 <= i < |Decimal(n)| :: '0' <= Decimal(n)[i] <= '9'
    ensures n >= 10 ==> Decimal(n)[0] != '0'
  {
    if n >= 10 {
      DecimalDigits(n / 10);
    }
  }

  /** A label is an L and the number in decimal digits, at least three of them, and more only without
      a leading zero. */
  lemma LabelExact(n: nat)
    ensures |Label(n)| >= 4 && Label(n)[0] == 'L' && Value(Label(n)[1..]) == n
    ensures forall i | 1 <= i < |Label(n)| :: '0' <= Label(n)[i] <= '9'
    ensures |Label(n)| > 4 ==> Label(n)[1] != '0'
  {
    DecimalDigits(n);
    DecimalValue(n);
    PaddedValue(Decimal(n));
    assert Label(n)[1..] == Pad3(Decimal(n));
  }

  /** Different positions have different labels. */
  lemma LabelIsInjective(m: nat, n: nat)
    requires Label(m) == Label(n)
    ensures m == n
  {
    assert Label(m)[1..] == Pad3(Decimal(m)) && Label(n)[1..] == Pad3(Decimal(n));
    PaddedValue(Decimal(m));
    PaddedValue(Decimal(n));
    DecimalValue(m);
    DecimalValue(n);
  }

  // ----- Texts, digests and what they cover -----

  /** Reading a license file, with trailing space removed, and hashing its text. */
  datatype Tools = Tools(read: FilePath -> string, sha: string -> string)

  function PackageText(e: Entry): string {
    e.name + " " + e.version
  }

  /** The digests of a package's nonempty license texts. */
  function Refs(paths: seq<FilePath>, tools: Tools): seq<string> {
    if paths == [] then []
    else
      var rest, text := Refs(paths[..|paths| - 1], tools), tools.read(paths[|paths| - 1]);
      if text == "" then rest else rest + [tools.sha(text)]
  }

  datatype Index = Index(texts: map<string, string>, cover: map<string, set<string>>)

  function AddText(ix: Index, package: string, text: string, tools: Tools): Index {
    if text == "" then ix
    else
      var d := tools.sha(text);
      Index(ix.texts[d := text], ix.cover[d := (if d in ix.cover then ix.cover[d] else {}) + {package}])
  }

  function AddPaths(ix: Index, package: string, paths: seq<FilePath>, tools: Tools): Index {
    if paths == [] then ix
    else AddText(AddPaths(ix, package, paths[..|paths| - 1], tools), package, tools.read(paths[|paths| - 1]), tools)
  }

  function IndexOf(entries: seq<Entry>, tools: Tools): Index {
    if entries == [] then Index(map[], map[])
    else
      var last := entries[|entries| - 1];
      AddPaths(IndexOf(entries[..|entries| - 1], tools), PackageText(last), last.paths, tools)
  }

  /** Some file of these paths has this text. */
  ghost predicate PathText(paths: seq<FilePath>, text: string, tools: Tools) {
    text != "" && exists p | p in paths :: tools.read(p) == text
  }

  /** Some file of these paths has this digest. */
  ghost predicate PathDigest(paths: seq<FilePath>, d: string, tools: Tools) {
    exists p | p in paths :: tools.read(p) != "" && tools.sha(tools.read(p)) == d
  }

  ghost predicate SomeText(entries: seq<Entry>, text: string, tools: Tools) {
    exists e | e in entries :: PathText(e.paths, text, tools)
  }

  ghost predicate SomeDigest(entries: seq<Entry>, d: string, tools: Tools) {
    exists e | e in entries :: PathDigest(e.paths, d, tools)
  }

  /** Some package of this name and version has this digest. */
  ghost predicate Covers(entries: seq<Entry>, d: string, package: string, tools: Tools) {
    exists e | e in entries :: PathDigest(e.paths, d, tools) && PackageText(e) == package
  }

  lemma {:induction false} RefsExact(paths: seq<FilePath>, tools: Tools, d: string)
    ensures d in Refs(paths, tools) <==> PathDigest(paths, d, tools)
  {
    if paths != [] {
      RefsExact(paths[..|paths| - 1], tools, d);
      assert forall p :: p in paths <==> p in paths[..|paths| - 1] || p == paths[|paths| - 1];
    }
  }

  ghost function CoverAt(ix: Index, d: string): set<string> {
    if d in ix.cover then ix.cover[d] else {}
  }

  lemma {:induction false} AddPathsCover(ix: Index, package: string, paths: seq<FilePath>, tools: Tools, d: string)
    requires ix.cover.Keys == ix.texts.Keys
    ensures
      var r := AddPaths(ix, package, paths, tools);
      && r.cover.Keys == r.texts.Keys
      && (d in r.texts <==> d in ix.texts || PathDigest(paths, d, tools))
      && CoverAt(r, d) == CoverAt(ix, d) + (if PathDigest(paths, d, tools) then {package} else {})
  {
    if paths != [] {
      var front, last := paths[..|paths| - 1], paths[|paths| - 1];
      AddPathsCover(ix, package, front, tools, d);
      assert forall p :: p in paths <==> p in front || p == last;
      assert PathDigest(paths, d, tools) <==> PathDigest(front, d, tools) || (tools.read(last) != "" && tools.sha(tools.read(last)) == d);
    }
  }

  lemma {:induction false} AddPathsText(ix: Index, package: string, paths: seq<FilePath>, tools: Tools, d: string)
    requires d in AddPaths(ix, package, paths, tools).texts
    ensures
      var text := AddPaths(ix, package, paths, tools).texts[d];
      (d in ix.texts && text == ix.texts[d]) || (PathText(paths, text, tools) && tools.sha(text) == d)
  {
    if paths != [] {
      var front, last := paths[..|paths| - 1], paths[|paths| - 1];
      assert forall p :: p in paths <==> p in front || p == last;
      if tools.read(last) == "" || tools.sha(tools.read(last)) != d {
        AddPathsText(ix, package, front, tools, d);
      }
    }
  }

  /** The index after all packages: a digest is there exactly when some package has it, and it covers
      exactly those packages. */
  lemma {:induction false} IndexCover(entries: seq<Entry>, tools: Tools, d: string)
    ensures
      var ix := IndexOf(entries, tools);
      && ix.cover.Keys == ix.texts.Keys
      && (d in ix.texts <==> SomeDigest(entries, d, tools))
      && forall package :: package in CoverAt(ix, d) <==> Covers(entries, d, package, tools)
  {
    if entries != [] {
      var front, last := entries[..|entries| - 1], entries[|entries| - 1];
      IndexCover(front, tools, d);
      AddPathsCover(IndexOf(front, tools), PackageText(last), last.paths, tools, d);
      assert forall e :: e in entries <==> e in front || e == last;
      assert SomeDigest(entries, d, tools) <==> SomeDigest(front, d, tools) || PathDigest(last.paths, d, tools);
      forall package
        ensures Covers(entries, d, package, tools) <==>
                Covers(front, d, package, tools) || (PathDigest(last.paths, d, tools) && PackageText(last) == package)
      {
      }
    }
  }

  /** The text kept for a digest is a text of some package, and has that digest. */
  lemma {:induction false} IndexText(entries: seq<Entry>, tools: Tools, d: string)
    requires d in IndexOf(entries, tools).texts
    ensures SomeText(entries, IndexOf(entries, tools).texts[d], tools) && tools.sha(IndexOf(entries, tools).texts[d]) == d
  {
    if entries != [] {
      var front, last := entries[..|entries| - 1], entries[|entries| - 1];
      AddPathsText(IndexOf(front, tools), PackageText(last), last.paths, tools, d);
      var text := IndexOf(entries, tools).texts[d];
      assert last in entries && forall e | e in front :: e in entries;
      if !(PathText(last.paths, text, tools) && tools.sha(text) == d) {
        IndexText(front, tools, d);
        var e :| e in front && PathText(e.paths, text, tools);
      }
    }
  }

  // ----- The bundle -----

  datatype Row = Row(package: string, expression: string, labels: seq<string>)

  datatype Section = Section(tag: string, covered: seq<string>, text: string)

  datatype Bundle = Bundle(rows: seq<Row>, sections: seq<Section>)

  ghost predicate IsSorted(s: set<string>, r: seq<string>) {
    Distinct(r) && Orders.SortedBy(Orders.TEXT_LE, r) && forall x :: x in r <==> x in s
  }

  lemma {:induction false} SetAsList(s: set<string>) returns (r: seq<string>)
    ensures forall x :: x in r <==> x in s
    decreases s
  {
    r := [];
    if x :| x in s {
      var rest := SetAsList(s - {x});
      r := rest + [x];
    }
  }

  lemma SortedListExists(s: set<string>)
    ensures exists r :: IsSorted(s, r)
  {
    var list := SetAsList(s);
    Orders.TextIsTotalOrder();
    Orders.SortedSetFacts(Orders.TEXT_LE, list);
    assert IsSorted(s, Orders.SortedSet(Orders.TEXT_LE, list));
  }

  lemma SortedListIsUnique(s: set<string>, a: seq<string>, b: seq<string>)
    requires IsSorted(s, a) && IsSorted(s, b)
    ensures a == b
  {
    Orders.TextIsTotalOrder();
    Orders.SortedSetIsUnique(Orders.TEXT_LE, a, b);
  }

  /** `sorted(s)`. */
  ghost function SortedList(s: set<string>): (r: seq<string>)
    ensures IsSorted(s, r)
  {
    SortedListExists(s);
    var r :| IsSorted(s, r);
    r
  }

  function Position(s: seq<string>, x: string): (i: nat)
    requires x in s
    ensures i < |s| && s[i] == x
  {
    if s[0] == x then 0 else 1 + Position(s[1..], x)
  }

  /** The labels of these digests, numbered from one in the order of all digests. */
  function LabelsFor(digests: seq<string>, refs: seq<string>): seq<string>
    requires forall d | d in refs :: d in digests
  {
    seq(|refs|, i requires 0 <= i < |refs| => assert refs[i] in refs; Label(Position(digests, refs[i]) + 1))
  }

  ghost predicate AllKnown(entries: seq<Entry>, digests: seq<string>, tools: Tools) {
    forall e, d | e in entries && d in Refs(e.paths, tools) :: d in digests
  }

  ghost function RowOf(e: Entry, digests: seq<string>, tools: Tools): Row
    requires forall d | d in Refs(e.paths, tools) :: d in digests
  {
    Row(PackageText(e), e.expression, LabelsFor(digests, SortedList(Elements(Refs(e.paths, tools)))))
  }

  ghost function SectionOf(ix: Index, digests: seq<string>, k: nat): Section
    requires k < |digests| && digests[k] in ix.texts && ix.cover.Keys == ix.texts.Keys
  {
    Section(Label(k + 1), SortedList(ix.cover[digests[k]]), ix.texts[digests[k]])
  }

  /** The bundle of packages already in order. */
  ghost predicate IsBundle(entries: seq<Entry>, tools: Tools, b: Bundle) {
    var ix := IndexOf(entries, tools);
    var digests := SortedList(ix.texts.Keys);
    && ix.cover.Keys == ix.texts.Keys && AllKnown(entries, digests, tools)
    && |b.rows| == |entries| && |b.sections| == |digests|
    && (forall i | 0 <= i < |entries| :: b.rows[i] == RowOf(entries[i], digests, tools))
    && (forall k | 0 <= k < |digests| :: b.sections[k] == SectionOf(ix, digests, k))
  }

  lemma BundleIsUnique(entries: seq<Entry>, tools: Tools, a: Bundle, b: Bundle)
    requires IsBundle(entries, tools, a) && IsBundle(entries, tools, b)
    ensures a == b
  {
    assert a.rows == b.rows;
    assert a.sections == b.sections;
  }

  // ----- The loops -----

  datatype Listed = Listed(package: string, expression: string, refs: seq<string>)

  method ReadPackage(before: Index, e: Entry, tools: Tools) returns (ix: Index, refs: seq<string>)
    ensures ix == AddPaths(before, PackageText(e), e.paths, tools) && refs == Refs(e.paths, tools)
  {
    ix, refs := before, [];
    for i := 0 to |e.paths|
      invariant ix == AddPaths(before, PackageText(e), e.paths[..i], tools) && refs == Refs(e.paths[..i], tools)
    {
      assert e.paths[..i + 1][..i] == e.paths[..i];
      var text := tools.read(e.paths[i]);
      if text == "" {
        continue;
      }
      ix := AddText(ix, PackageText(e), text, tools);
      refs := refs + [tools.sha(text)];
    }
    assert e.paths[..|e.paths|] == e.paths;
  }

  ghost function ListedOf(e: Entry, tools: Tools): Listed {
    Listed(PackageText(e), e.expression, SortedList(Elements(Refs(e.paths, tools))))
  }

  /** One package read and listed, with its digests sorted. */
  method ListPackage(before: Index, e: Entry, tools: Tools) returns (ix: Index, listed: Listed)
    ensures ix == AddPaths(before, PackageText(e), e.paths, tools) && listed == ListedOf(e, tools)
    ensures listed.refs == [] <==> Refs(e.paths, tools) == []
  {
    var refs;
    ix, refs := ReadPackage(before, e, tools);
    var sorted := Sorted(Elements(refs));
    SortedListIsUnique(Elements(refs), sorted, SortedList(Elements(refs)));
    assert refs != [] ==> refs[0] in Elements(refs);
    assert sorted != [] ==> sorted[0] in Elements(refs);
    listed := Listed(PackageText(e), e.expression, sorted);
  }

  method ReadAll(entries: seq<Entry>, tools: Tools) returns (ix: Index, inventory: seq<Listed>, missing: bool)
    ensures ix == IndexOf(entries, tools)
    ensures |inventory| == |entries| && forall i | 0 <= i < |entries| :: inventory[i] == ListedOf(entries[i], tools)
    ensures missing <==> exists i | 0 <= i < |entries| :: Refs(entries[i].paths, tools) == []
  {
    ix, inventory, missing := Index(map[], map[]), [], false;
    for i := 0 to |entries|
      invariant ix == IndexOf(entries[..i], tools)
      invariant |inventory| == i && forall j | 0 <= j < i :: inventory[j] == ListedOf(entries[j], tools)
      invariant missing <==> exists j | 0 <= j < i :: Refs(entries[j].paths, tools) == []
    {
      assert entries[..i + 1][..i] == entries[..i];
      var listed;
      ix, listed := ListPackage(ix, entries[i], tools);
      if listed.refs == [] {
        missing := true;
      }
      inventory := inventory + [listed];
    }
    assert entries[..|entries|] == entries;
  }

  method MakeRows(inventory: seq<Listed>, digests: seq<string>) returns (rows: seq<Row>)
    requires forall i, d | 0 <= i < |inventory| && d in inventory[i].refs :: d in digests
    ensures |rows| == |inventory|
    ensures forall i | 0 <= i < |inventory| ::
      rows[i] == Row(inventory[i].package, inventory[i].expression, LabelsFor(digests, inventory[i].refs))
  {
    rows := [];
    for i := 0 to |inventory|
      invariant |rows| == i && forall j | 0 <= j < i ::
        rows[j] == Row(inventory[j].package, inventory[j].expression, LabelsFor(digests, inventory[j].refs))
    {
      rows := rows + [Row(inventory[i].package, inventory[i].expression, LabelsFor(digests, inventory[i].refs))];
    }
  }

  method MakeSections(ix: Index, digests: seq<string>) returns (sections: seq<Section>)
    requires ix.cover.Keys == ix.texts.Keys && forall d | d in digests :: d in ix.texts
    ensures |sections| == |digests| && forall k | 0 <= k < |digests| :: digests[k] in digests && sections[k] == SectionOf(ix, digests, k)
  {
    sections := [];
    for k := 0 to |digests|
      invariant |sections| == k && forall j | 0 <= j < k :: digests[j] in digests && sections[j] == SectionOf(ix, digests, j)
    {
      assert digests[k] in digests;
      var covered := Sorted(ix.cover[digests[k]]);
      SortedListIsUnique(ix.cover[digests[k]], covered, SortedList(ix.cover[digests[k]]));
      sections := sections + [Section(Label(k + 1), covered, ix.texts[digests[k]])];
    }
  }

  /** The bundle, or nothing when some package has no license text at all. */
  method RenderBundle(packages: seq<Entry>, tools: Tools) returns (r: Option<Bundle>)
    ensures r.Some? <==> forall e | e in packages :: HasText(e, tools)
    ensures r.Some? ==> IsBundle(Orders.Sort(ENTRY_LE, packages), tools, r.value)
    ensures r.Some? ==> Shows(Orders.Sort(ENTRY_LE, packages), packages, r.value.rows)
  {
    TextsOrNone(packages, tools);
    SortedRows(packages);
    var entries := Orders.Sort(ENTRY_LE, packages);
    SortedElements(packages);
    var ix, inventory, missing := ReadAll(entries, tools);
    if missing {
      return None;
    }
    forall e | e in packages ensures Refs(e.paths, tools) != [] {
      var i :| 0 <= i < |entries| && entries[i] == e;
    }
    var digests := Sorted(ix.texts.Keys);
    SortedListIsUnique(ix.texts.Keys, digests, SortedList(ix.texts.Keys));
    IndexCover(entries, tools, "");
    EveryRefIsKnown(entries, digests, tools);
    forall i, d | 0 <= i < |inventory| && d in inventory[i].refs ensures d in digests {
      assert entries[i] in entries && d in Refs(entries[i].paths, tools);
    }
    var rows := MakeRows(inventory, digests);
    var sections := MakeSections(ix, digests);
    return Some(Bundle(rows, sections));
  }

  /** Some license file of the package has a text. */
  ghost predicate HasText(e: Entry, tools: Tools) {
    exists p | p in e.paths :: tools.read(p) != ""
  }

  lemma TextsOrNone(packages: seq<Entry>, tools: Tools)
    ensures forall e | e in packages :: Refs(e.paths, tools) != [] <==> HasText(e, tools)
  {
    forall e | e in packages ensures Refs(e.paths, tools) != [] <==> HasText(e, tools) {
      var refs := Refs(e.paths, tools);
      if refs != [] {
        RefsExact(e.paths, tools, refs[0]);
      }
      if p :| p in e.paths && tools.read(p) != "" {
        RefsExact(e.paths, tools, tools.sha(tools.read(p)));
      }
    }
  }

  /** The packages in order, and a row for each with its name, version and declared license. */
  ghost predicate Shows(entries: seq<Entry>, packages: seq<Entry>, rows: seq<Row>) {
    && multiset(entries) == multiset(packages) && (forall i, j | 0 <= i < j < |entries| :: EntryBefore(entries[i], entries[j]))
    && |rows| == |entries|
    && forall i | 0 <= i < |rows| ::
         rows[i].package == entries[i].name + " " + entries[i].version && rows[i].expression == entries[i].expression
  }

  lemma SortedRows(packages: seq<Entry>)
    ensures
      var entries := Orders.Sort(ENTRY_LE, packages);
      multiset(entries) == multiset(packages) && forall i, j | 0 <= i < j < |entries| :: EntryBefore(entries[i], entries[j])
  {
    var entries := Orders.Sort(ENTRY_LE, packages);
    EntryOrderIsTotal();
    Orders.SortFacts(ENTRY_LE, packages);
    forall i, j | 0 <= i < j < |entries| ensures EntryBefore(entries[i], entries[j]) {
      EntryOrderExact(entries[i], entries[j]);
    }
  }

  lemma SortedElements(packages: seq<Entry>)
    ensures forall e :: e in Orders.Sort(ENTRY_LE, packages) <==> e in packages
  {
    EntryOrderIsTotal();
    Orders.SortFacts(ENTRY_LE, packages);
    forall e ensures e in Orders.Sort(ENTRY_LE, packages) <==> e in packages {
      assert e in Orders.Sort(ENTRY_LE, packages) <==> e in multiset(Orders.Sort(ENTRY_LE, packages));
      assert e in packages <==> e in multiset(packages);
    }
  }

  lemma EveryRefIsKnown(entries: seq<Entry>, digests: seq<string>, tools: Tools)
    requires forall d :: d in digests <==> d in IndexOf(entries, tools).texts
    ensures AllKnown(entries, digests, tools)
  {
    forall e, d | e in entries && d in Refs(e.paths, tools) ensures d in digests {
      RefsExact(e.paths, tools, d);
      IndexCover(entries, tools, d);
    }
  }

  // ----- What a bundle promises -----

  /** Labels are distinct. */
  lemma SectionTagsAreDistinct(entries: seq<Entry>, tools: Tools, b: Bundle, i: nat, j: nat)
    requires IsBundle(entries, tools, b) && i < j < |b.sections|
    ensures b.sections[i].tag != b.sections[j].tag
  {
    if Label(i + 1) == Label(j + 1) {
      LabelIsInjective(i + 1, j + 1);
    }
  }

  /** Sections come in the order of their texts' digests, numbered from one, and list their packages in
      order, each once. */
  lemma SectionsInOrder(entries: seq<Entry>, tools: Tools, b: Bundle, i: nat, j: nat)
    requires IsBundle(entries, tools, b) && i < j < |b.sections|
    ensures TextBefore(tools.sha(b.sections[i].text), tools.sha(b.sections[j].text))
    ensures tools.sha(b.sections[i].text) != tools.sha(b.sections[j].text)
    ensures b.sections[i].tag == Label(i + 1) && Distinct(b.sections[i].covered)
    ensures forall k, l | 0 <= k < l < |b.sections[i].covered| :: TextBefore(b.sections[i].covered[k], b.sections[i].covered[l])
  {
    var ix := IndexOf(entries, tools);
    var digests := SortedList(ix.texts.Keys);
    assert digests[i] in digests && digests[j] in digests;
    assert b.sections[i] == SectionOf(ix, digests, i) && b.sections[j] == SectionOf(ix, digests, j);
    IndexText(entries, tools, digests[i]);
    IndexText(entries, tools, digests[j]);
    assert Orders.TEXT_LE(digests[i], digests[j]);
    TextBeforeExact(digests[i], digests[j]);
    var covered := b.sections[i].covered;
    forall k, l | 0 <= k < l < |covered| ensures TextBefore(covered[k], covered[l]) {
      TextBeforeExact(covered[k], covered[l]);
    }
  }

  ghost predicate SectionLists(b: Bundle, tag: string, package: string) {
    exists k | 0 <= k < |b.sections| :: b.sections[k].tag == tag && package in b.sections[k].covered
  }

  ghost predicate RowLists(b: Bundle, package: string, tag: string) {
    exists i | 0 <= i < |b.rows| :: b.rows[i].package == package && tag in b.rows[i].labels
  }

  lemma SectionCovers(entries: seq<Entry>, tools: Tools, b: Bundle, k: nat, package: string)
    requires IsBundle(entries, tools, b) && k < |b.sections|
    ensures
      var digests := SortedList(IndexOf(entries, tools).texts.Keys);
      && |digests| == |b.sections| && b.sections[k].tag == Label(k + 1)
      && (package in b.sections[k].covered <==> Covers(entries, digests[k], package, tools))
  {
    var ix := IndexOf(entries, tools);
    var digests := SortedList(ix.texts.Keys);
    IndexCover(entries, tools, digests[k]);
    assert b.sections[k] == SectionOf(ix, digests, k) && digests[k] in digests;
  }

  lemma LabelHasDigest(digests: seq<string>, refs: seq<string>, k: nat, j: nat)
    requires (forall d | d in refs :: d in digests) && k < |digests| && j < |refs| && LabelsFor(digests, refs)[j] == Label(k + 1)
    ensures refs[j] == digests[k]
  {
    assert refs[j] in refs;
    LabelIsInjective(Position(digests, refs[j]) + 1, k + 1);
  }

  lemma DigestHasLabel(digests: seq<string>, refs: seq<string>, k: nat, j: nat)
    requires (forall d | d in refs :: d in digests) && k < |digests| && Distinct(digests)
    requires j < |refs| && refs[j] == digests[k]
    ensures LabelsFor(digests, refs)[j] == Label(k + 1)
  {
    assert refs[j] in refs;
    assert Position(digests, refs[j]) == k;
  }

  /** A digest's label is among the labels exactly when the digest is among the references. */
  lemma LabelsExact(digests: seq<string>, refs: seq<string>, k: nat)
    requires (forall d | d in refs :: d in digests) && k < |digests| && Distinct(digests)
    ensures Label(k + 1) in LabelsFor(digests, refs) <==> digests[k] in refs
  {
    var labels := LabelsFor(digests, refs);
    if digests[k] in refs {
      var j :| 0 <= j < |refs| && refs[j] == digests[k];
      DigestHasLabel(digests, refs, k, j);
      assert labels[j] in labels;
    }
    if Label(k + 1) in labels {
      var j :| 0 <= j < |labels| && labels[j] == Label(k + 1);
      LabelHasDigest(digests, refs, k, j);
      assert refs[j] in refs;
    }
  }

  /** The row of an entry: its package, and the labels of its sorted references. */
  lemma RowOfBundle(entries: seq<Entry>, tools: Tools, b: Bundle, i: nat)
    requires IsBundle(entries, tools, b) && i < |b.rows|
    ensures
      var digests, refs := SortedList(IndexOf(entries, tools).texts.Keys), SortedList(Elements(Refs(entries[i].paths, tools)));
      && |digests| == |b.sections| && |entries| == |b.rows| && b.rows[i].package == PackageText(entries[i])
      && (forall d | d in refs :: d in digests) && b.rows[i].labels == LabelsFor(digests, refs)
  {
    var digests := SortedList(IndexOf(entries, tools).texts.Keys);
    assert b.rows[i] == RowOf(entries[i], digests, tools);
    assert entries[i] in entries;
  }

  lemma RowLabels(entries: seq<Entry>, tools: Tools, b: Bundle, i: nat, k: nat)
    requires IsBundle(entries, tools, b) && i < |b.rows| && k < |b.sections|
    ensures
      var digests := SortedList(IndexOf(entries, tools).texts.Keys);
      && |digests| == |b.sections| && |entries| == |b.rows| && b.rows[i].package == PackageText(entries[i])
      && (Label(k + 1) in b.rows[i].labels <==> PathDigest(entries[i].paths, digests[k], tools))
  {
    var digests := SortedList(IndexOf(entries, tools).texts.Keys);
    RowOfBundle(entries, tools, b, i);
    LabelsExact(digests, SortedList(Elements(Refs(entries[i].paths, tools))), k);
    RefsExact(entries[i].paths, tools, digests[k]);
  }

  lemma RowTagIsSection(entries: seq<Entry>, tools: Tools, b: Bundle, i: nat, tag: string) returns (k: nat)
    requires IsBundle(entries, tools, b) && i < |b.rows| && tag in b.rows[i].labels
    ensures k < |b.sections| && tag == Label(k + 1)
  {
    var digests := SortedList(IndexOf(entries, tools).texts.Keys);
    var refs := SortedList(Elements(Refs(entries[i].paths, tools)));
    RowOfBundle(entries, tools, b, i);
    k := LabelHasPosition(digests, refs, tag);
  }

  lemma LabelHasPosition(digests: seq<string>, refs: seq<string>, tag: string) returns (k: nat)
    requires (forall d | d in refs :: d in digests) && tag in LabelsFor(digests, refs)
    ensures k < |digests| && tag == Label(k + 1)
  {
    var j :| 0 <= j < |refs| && LabelsFor(digests, refs)[j] == tag;
    assert refs[j] in refs;
    k := Position(digests, refs[j]);
  }

  /** The two indexes agree: a text lists a package exactly when an inventory row of that package lists
      the text's label. */
  lemma IndexesAgree(entries: seq<Entry>, tools: Tools, b: Bundle, tag: string, package: string)
    requires IsBundle(entries, tools, b)
    ensures SectionLists(b, tag, package) <==> RowLists(b, package, tag)
  {
    var digests := SortedList(IndexOf(entries, tools).texts.Keys);
    if SectionLists(b, tag, package) {
      var k :| 0 <= k < |b.sections| && b.sections[k].tag == tag && package in b.sections[k].covered;
      SectionCovers(entries, tools, b, k, package);
      var e :| e in entries && PathDigest(e.paths, digests[k], tools) && PackageText(e) == package;
      var i :| 0 <= i < |entries| && entries[i] == e;
      RowLabels(entries, tools, b, i, k);
    }
    if RowLists(b, package, tag) {
      var i :| 0 <= i < |b.rows| && b.rows[i].package == package && tag in b.rows[i].labels;
      var k := RowTagIsSection(entries, tools, b, i, tag);
      RowLabels(entries, tools, b, i, k);
      SectionCovers(entries, tools, b, k, package);
    }
  }

  ghost predicate CollisionFree(tools: Tools) {
    forall a, b :: tools.sha(a) == tools.sha(b) ==> a == b
  }

  ghost predicate TextLists(b: Bundle, text: string, package: string) {
    exists k | 0 <= k < |b.sections| :: b.sections[k].text == text && package in b.sections[k].covered
  }

  /** With collision-free digests, a text is printed once, and lists a package exactly when a package of
      that name and version has a file with that very text. */
  lemma TextsAreExact(entries: seq<Entry>, tools: Tools, b: Bundle, text: string, package: string)
    requires IsBundle(entries, tools, b) && CollisionFree(tools)
    ensures TextLists(b, text, package) <==> exists e | e in entries :: PackageText(e) == package && PathText(e.paths, text, tools)
    ensures forall i, j | 0 <= i < j < |b.sections| :: b.sections[i].text != b.sections[j].text
  {
    var ix := IndexOf(entries, tools);
    var digests := SortedList(ix.texts.Keys);
    forall k | 0 <= k < |digests| ensures b.sections[k].text != "" && tools.sha(b.sections[k].text) == digests[k] {
      assert digests[k] in digests && b.sections[k] == SectionOf(ix, digests, k);
      IndexText(entries, tools, digests[k]);
    }
    if TextLists(b, text, package) {
      var k :| 0 <= k < |b.sections| && b.sections[k].text == text && package in b.sections[k].covered;
      SectionCovers(entries, tools, b, k, package);
      var e :| e in entries && PathDigest(e.paths, digests[k], tools) && PackageText(e) == package;
      assert PathText(e.paths, text, tools);
    }
    if e :| e in entries && PackageText(e) == package && PathText(e.paths, text, tools) {
      assert PathDigest(e.paths, tools.sha(text), tools);
      IndexCover(entries, tools, tools.sha(text));
      assert SomeDigest(entries, tools.sha(text), tools);
      var k :| 0 <= k < |digests| && digests[k] == tools.sha(text);
      SectionCovers(entries, tools, b, k, package);
      assert b.sections[k].text == text;
    }
  }

  /** The bundle does not depend on the order in which packages are given. */
  lemma OrderDoesNotMatter(a: seq<Entry>, b: seq<Entry>, tools: Tools, x: Bundle, y: Bundle)
    requires multiset(a) == multiset(b)
    requires IsBundle(Orders.Sort(ENTRY_LE, a), tools, x) && IsBundle(Orders.Sort(ENTRY_LE, b), tools, y)
    ensures x == y
    ensures (forall e | e in a :: Refs(e.paths, tools) != []) <==> (forall e | e in b :: Refs(e.paths, tools) != [])
  {
    EntryOrderIsTotal();
    Orders.SortOfPermutation(ENTRY_LE, a, b);
    BundleIsUnique(Orders.Sort(ENTRY_LE, a), tools, x, y);
    SortedElements(a);
    SortedElements(b);
  }
}

/**
 The bounded reader of the N_OSO names of a thin little-endian 64-bit Mach-O image, its
 specification, and the layouts on which it returns exactly the names laid out.
 */
module MachO {
  import opened Prelude

  const LC_SYMTAB := 2
  const N_OSO := 0x66
  const MAGIC: seq<Byte> := [0xcf, 0xfa, 0xed, 0xfe]
  const MAX_COMMANDS := 10000
  const MAX_COMMAND_BYTES := 16 * 1024 * 1024
  const MAX_TABLE_BYTES := 128 * 1024 * 1024

  /** The number these bytes spell, least significant first. */
  function LittleEndian(s: seq<Byte>): nat {
    if s == [] then 0 else (s[0] as nat) + 0x100 * LittleEndian(s[1..])
  }

  /** `struct.unpack_from("<I", s, at)`, where it does not raise. */
  function U32(s: seq<Byte>, at: nat): nat
    requires at + 4 <= |s|
  {
    LittleEndian(s[at..at + 4])
  }

  /** `f.seek(pos); f.read(n)`: short at the end of the file, empty beyond it. */
  function ReadAt(file: seq<Byte>, pos: nat, n: nat): (s: seq<Byte>)
    ensures |s| <= n
  {
    if pos >= |file| then []
    else if pos + n <= |file| then file[pos..pos + n]
    else file[pos..]
  }

  // ----- Specification -----

  predicate HeaderAccepted(file: seq<Byte>) {
    && |file| >= 32 && file[..4] == MAGIC
    && U32(file, 16) <= MAX_COMMANDS && U32(file, 20) <= MAX_COMMAND_BYTES
  }

  predicate CommandAccepted(commands: seq<Byte>, o: nat) {
    && o + 8 <= |commands| && 8 <= U32(commands, o + 4) && o + U32(commands, o + 4) <= |commands|
    && (U32(commands, o) == LC_SYMTAB ==> o + 24 <= |commands|)
  }

  /** Where the command after the first `n` starts, when each of them is accepted. */
  function OffsetAfter(commands: seq<Byte>, n: nat): Option<nat> {
    if n == 0 then Some(0)
    else
      match OffsetAfter(commands, n - 1)
      case None => None
      case Some(o) => if CommandAccepted(commands, o) then Some(o + U32(commands, o + 4)) else None
  }

  datatype Symtab = Symtab(symoff: nat, count: nat, stroff: nat, strsize: nat)

  function SymtabAt(commands: seq<Byte>, o: nat): Symtab
    requires o + 24 <= |commands|
  {
    Symtab(U32(commands, o + 8), U32(commands, o + 12), U32(commands, o + 16), U32(commands, o + 20))
  }

  /** The symbol table command that counts: the last one among the first `n`. */
  function LastSymtab(commands: seq<Byte>, n: nat): Option<Symtab>
    requires OffsetAfter(commands, n).Some?
  {
    if n == 0 then None
    else
      var o := OffsetAfter(commands, n - 1).value;
      if U32(commands, o) == LC_SYMTAB then Some(SymtabAt(commands, o)) else LastSymtab(commands, n - 1)
  }

  predicate TablesAccepted(file: seq<Byte>, t: Symtab) {
    && t.count * 16 <= MAX_TABLE_BYTES && t.strsize <= MAX_TABLE_BYTES
    && |ReadAt(file, t.stroff, t.strsize)| == t.strsize
    && |ReadAt(file, t.symoff, t.count * 16)| == t.count * 16
  }

  predicate IsOso(symbols: seq<Byte>, i: nat)
    requires 16 * i + 16 <= |symbols|
  {
    symbols[16 * i + 4] == N_OSO
  }

  /** `name` stands at `start`, ended by the first NUL from there. */
  ghost predicate NamedAt(strings: seq<Byte>, start: nat, name: seq<Byte>) {
    && start + |name| < |strings| && strings[start..start + |name|] == name
    && strings[start + |name|] == 0 && 0 !in name
  }

  /** Entry `i` carries an object name: it is N_OSO and its string is a decodable name. */
  ghost predicate EntryNames(strings: seq<Byte>, symbols: seq<Byte>, i: nat, name: seq<Byte>)
    requires 16 * i + 16 <= |symbols|
  {
    IsOso(symbols, i) && NamedAt(strings, U32(symbols, 16 * i), name)
  }

  /** The entry has a decodable name. */
  ghost predicate HasName(strings: seq<Byte>, symbols: seq<Byte>, utf8: seq<Byte> -> bool, i: nat)
    requires 16 * i + 16 <= |symbols|
  {
    exists name :: EntryNames(strings, symbols, i, name) && utf8(name)
  }

  ghost predicate EntriesAccepted(strings: seq<Byte>, symbols: seq<Byte>, utf8: seq<Byte> -> bool, n: nat)
    requires 16 * n <= |symbols|
  {
    forall i: nat | i < n && IsOso(symbols, i) :: HasName(strings, symbols, utf8, i)
  }

  /** The images the reader accepts. */
  ghost predicate Readable(file: seq<Byte>, utf8: seq<Byte> -> bool) {
    && HeaderAccepted(file)
    && var commands := ReadAt(file, 32, U32(file, 20));
       && OffsetAfter(commands, U32(file, 16)).Some?
       && LastSymtab(commands, U32(file, 16)).Some?
       && var t := LastSymtab(commands, U32(file, 16)).value;
          && TablesAccepted(file, t)
          && EntriesAccepted(ReadAt(file, t.stroff, t.strsize), ReadAt(file, t.symoff, t.count * 16), utf8, t.count)
  }

  ghost predicate NamesUpTo(strings: seq<Byte>, symbols: seq<Byte>, n: nat, names: set<seq<Byte>>)
    requires 16 * n <= |symbols|
  {
    forall name :: name in names <==> exists i: nat | i < n :: EntryNames(strings, symbols, i, name)
  }

  /** `names` is exactly the set of strings of all N_OSO entries of the image. */
  ghost predicate OsoNames(file: seq<Byte>, names: set<seq<Byte>>)
    requires HeaderAccepted(file) && OffsetAfter(ReadAt(file, 32, U32(file, 20)), U32(file, 16)).Some?
    requires LastSymtab(ReadAt(file, 32, U32(file, 20)), U32(file, 16)).Some?
    requires TablesAccepted(file, LastSymtab(ReadAt(file, 32, U32(file, 20)), U32(file, 16)).value)
  {
    var t := LastSymtab(ReadAt(file, 32, U32(file, 20)), U32(file, 16)).value;
    NamesUpTo(ReadAt(file, t.stroff, t.strsize), ReadAt(file, t.symoff, t.count * 16), t.count, names)
  }

  /** The i-th command is accepted and ends no later than at `end`. */
  ghost predicate EndsBy(commands: seq<Byte>, i: nat, end: nat) {
    && OffsetAfter(commands, i).Some? && CommandAccepted(commands, OffsetAfter(commands, i).value)
    && OffsetAfter(commands, i).value + U32(commands, OffsetAfter(commands, i).value + 4) <= end
  }

  lemma LowestFirst(s: seq<Byte>, rest: seq<Byte>)
    requires |s| == |rest| + 1 && forall i | 0 <= i < |rest| :: rest[i] == s[i + 1]
    ensures LittleEndian(s) == s[0] as nat + 0x100 * LittleEndian(rest)
  {
    assert s[1..] == rest;
  }

  /** Where the format has its fields: numbers in four bytes, the lowest first; the symbol table command's four
      numbers from its eighth byte on; and of each sixteen-byte entry the index of its name in the first four
      bytes and its type in the fifth. */
  lemma FieldsOfTheFormat(s: seq<Byte>, o: nat)
    ensures o + 4 <= |s| ==>
      U32(s, o) == s[o] as nat + 0x100 * (s[o + 1] as nat) + 0x10000 * (s[o + 2] as nat) + 0x1000000 * (s[o + 3] as nat)
    ensures o + 24 <= |s| ==> SymtabAt(s, o) == Symtab(U32(s, o + 8), U32(s, o + 12), U32(s, o + 16), U32(s, o + 20))
    ensures 16 * o + 16 <= |s| ==> (IsOso(s, o) <==> s[16 * o + 4] == 0x66)
    ensures 16 * o + 16 <= |s| ==> forall strings, name ::
      EntryNames(strings, s, o, name) ==> U32(s, 16 * o) + |name| < |strings| && strings[U32(s, 16 * o)..][..|name|] == name
  {
    if o + 4 <= |s| {
      var b := s[o..o + 4];
      LowestFirst(b, s[o + 1..o + 4]);
      LowestFirst(s[o + 1..o + 4], s[o + 2..o + 4]);
      LowestFirst(s[o + 2..o + 4], s[o + 3..o + 4]);
      LowestFirst(s[o + 3..o + 4], []);
    }
  }

  /** No image beyond the reader's limits is accepted: 10000 commands, 16 MiB of commands, 128 MiB of symbols
      and 128 MiB of strings, all of them in the file. */
  lemma ReadableIsBounded(file: seq<Byte>, utf8: seq<Byte> -> bool)
    requires Readable(file, utf8)
    ensures |file| >= 32 && file[0] == 0xcf && file[1] == 0xfa && file[2] == 0xed && file[3] == 0xfe
    ensures U32(file, 16) <= 10000 && U32(file, 20) <= 16 * 1024 * 1024
    ensures
      var commands := ReadAt(file, 32, U32(file, 20));
      var t := LastSymtab(commands, U32(file, 16)).value;
      && t.count * 16 <= 128 * 1024 * 1024 && t.strsize <= 128 * 1024 * 1024
      && t.stroff + t.strsize <= |file| + (if t.strsize == 0 then t.stroff else 0)
      && t.symoff + t.count * 16 <= |file| + (if t.count == 0 then t.symoff else 0)
  {
    assert file[..4][0] == file[0] && file[..4][1] == file[1] && file[..4][2] == file[2] && file[..4][3] == file[3];
  }

  /** The walk accepts no command that leaves the buffer, and moves at least eight bytes a command. */
  lemma {:induction false} WalkStaysInside(commands: seq<Byte>, n: nat)
    requires OffsetAfter(commands, n).Some?
    ensures 8 * n <= OffsetAfter(commands, n).value <= |commands|
    ensures forall i: nat | i < n :: EndsBy(commands, i, OffsetAfter(commands, n).value)
  {
    if n > 0 {
      WalkStaysInside(commands, n - 1);
      var end := OffsetAfter(commands, n).value;
      forall i: nat | i < n ensures EndsBy(commands, i, end) {
        assert i < n - 1 ==> EndsBy(commands, i, OffsetAfter(commands, n - 1).value);
      }
    }
  }

  lemma NameIsUnique(strings: seq<Byte>, start: nat, a: seq<Byte>, b: seq<Byte>)
    requires NamedAt(strings, start, a) && NamedAt(strings, start, b)
    ensures a == b
  {
    if |a| != |b| {
      assert false;
    }
  }

  // ----- The reader -----

  datatype Result = Rejected | Accepted(names: set<seq<Byte>>)

  /** `strings.find(b"\0", start)`. */
  function FindNul(s: seq<Byte>, start: nat): (r: Option<nat>)
    ensures r.Some? ==> start <= r.value < |s| && s[r.value] == 0 && 0 !in s[start..r.value]
    ensures r.None? ==> forall i | start <= i < |s| :: s[i] != 0
    decreases |s| - start
  {
    if start >= |s| then None
    else if s[start] == 0 then Some(start)
    else
      var r := FindNul(s, start + 1);
      assert r.Some? ==> s[start..r.value] == [s[start]] + s[start + 1..r.value];
      r
  }

  method WalkCommands(commands: seq<Byte>, ncmds: nat) returns (accepted: bool, table: Option<Symtab>)
    ensures accepted <==> OffsetAfter(commands, ncmds).Some?
    ensures accepted ==> table == LastSymtab(commands, ncmds)
  {
    var offset: nat := 0;
    table := None;
    for i := 0 to ncmds
      invariant OffsetAfter(commands, i) == Some(offset)
      invariant table == LastSymtab(commands, i)
    {
      if offset + 8 > |commands| {
        StuckWalk(commands, i, ncmds);
        return false, None;
      }
      var cmd, size := U32(commands, offset), U32(commands, offset + 4);
      if size < 8 || offset + size > |commands| {
        StuckWalk(commands, i, ncmds);
        return false, None;
      }
      if cmd == LC_SYMTAB {
        if offset + 24 > |commands| {
          StuckWalk(commands, i, ncmds);
          return false, None;
        }
        table := Some(SymtabAt(commands, offset));
      }
      offset := offset + size;
    }
    return true, table;
  }

  lemma {:induction false} StuckWalk(commands: seq<Byte>, i: nat, n: nat)
    requires i < n && OffsetAfter(commands, i).Some? && !CommandAccepted(commands, OffsetAfter(commands, i).value)
    ensures OffsetAfter(commands, n).None?
  {
    if i + 1 < n {
      StuckWalk(commands, i, n - 1);
    }
  }

  lemma NamesNext(strings: seq<Byte>, symbols: seq<Byte>, i: nat, names: set<seq<Byte>>, name: seq<Byte>)
    requires 16 * i + 16 <= |symbols| && NamesUpTo(strings, symbols, i, names)
    requires forall other :: EntryNames(strings, symbols, i, other) <==> other == name
    ensures NamesUpTo(strings, symbols, i + 1, names + {name})
  {
    var n := i + 1;
    forall x ensures x in names + {name} <==> exists j: nat | j < n :: EntryNames(strings, symbols, j, x) {
      if x in names {
        var j: nat :| j < i && EntryNames(strings, symbols, j, x);
        assert j < n;
      } else if x == name {
        assert EntryNames(strings, symbols, i, x);
      }
    }
  }

  lemma NamesSkip(strings: seq<Byte>, symbols: seq<Byte>, i: nat, names: set<seq<Byte>>)
    requires 16 * i + 16 <= |symbols| && NamesUpTo(strings, symbols, i, names) && !IsOso(symbols, i)
    ensures NamesUpTo(strings, symbols, i + 1, names)
  {
  }

  /** The decodable name of one N_OSO entry, if it has one. */
  method EntryName(strings: seq<Byte>, symbols: seq<Byte>, i: nat, utf8: seq<Byte> -> bool) returns (r: Option<seq<Byte>>)
    requires 16 * i + 16 <= |symbols| && IsOso(symbols, i)
    ensures r.Some? <==> HasName(strings, symbols, utf8, i)
    ensures r.Some? ==> forall name :: EntryNames(strings, symbols, i, name) <==> name == r.value
  {
    var start := U32(symbols, 16 * i);
    var end := FindNul(strings, start);
    if start >= |strings| || end.None? {
      return None;
    }
    var name := strings[start..end.value];
    assert EntryNames(strings, symbols, i, name);
    forall other | EntryNames(strings, symbols, i, other) ensures other == name {
      NameIsUnique(strings, start, name, other);
    }
    return if utf8(name) then Some(name) else None;
  }

  method CollectNames(strings: seq<Byte>, symbols: seq<Byte>, count: nat, utf8: seq<Byte> -> bool) returns (r: Result)
    requires |symbols| == 16 * count
    ensures r.Accepted? <==> EntriesAccepted(strings, symbols, utf8, count)
    ensures r.Accepted? ==> NamesUpTo(strings, symbols, count, r.names)
  {
    var names: set<seq<Byte>> := {};
    for i := 0 to count
      invariant EntriesAccepted(strings, symbols, utf8, i)
      invariant NamesUpTo(strings, symbols, i, names)
    {
      if symbols[16 * i + 4] != N_OSO {
        NamesSkip(strings, symbols, i, names);
        continue;
      }
      var name := EntryName(strings, symbols, i, utf8);
      if name.None? {
        return Rejected;
      }
      NamesNext(strings, symbols, i, names, name.value);
      names := names + {name.value};
    }
    return Accepted(names);
  }

  /** For every byte image: rejected exactly when not readable, and otherwise exactly its names. */
  method MachoObjects(file: seq<Byte>, utf8: seq<Byte> -> bool) returns (r: Result)
    ensures r.Accepted? <==> Readable(file, utf8)
    ensures r.Accepted? ==> OsoNames(file, r.names)
  {
    var header := ReadAt(file, 0, 32);
    if |header| != 32 || header[..4] != MAGIC {
      return Rejected;
    }
    assert header == file[..32] && header[16..20] == file[16..20] && header[20..24] == file[20..24];
    var ncmds, cmdbytes := U32(header, 16), U32(header, 20);
    if ncmds > MAX_COMMANDS || cmdbytes > MAX_COMMAND_BYTES {
      return Rejected;
    }
    var commands := ReadAt(file, 32, cmdbytes);
    var accepted, table := WalkCommands(commands, ncmds);
    if !accepted || table.None? {
      return Rejected;
    }
    var t := table.value;
    if t.count * 16 > MAX_TABLE_BYTES || t.strsize > MAX_TABLE_BYTES {
      return Rejected;
    }
    var strings, symbols := ReadAt(file, t.stroff, t.strsize), ReadAt(file, t.symoff, t.count * 16);
    if |strings| != t.strsize || |symbols| != t.count * 16 {
      return Rejected;
    }
    r := CollectNames(strings, symbols, t.count, utf8);
  }

  // ----- Well-formed layouts, after mach-o/loader.h and mach-o/nlist.h -----

  function Le32(n: nat): (s: seq<Byte>)
    requires n < 0x1_0000_0000
    ensures |s| == 4
  {
    LeBytes(n, 4)
  }

  function LeBytes(n: nat, width: nat): (s: seq<Byte>)
    ensures |s| == width
  {
    if width == 0 then [] else [n % 0x100] + LeBytes(n / 0x100, width - 1)
  }

  function Power256(width: nat): nat {
    if width == 0 then 1 else 0x100 * Power256(width - 1)
  }

  lemma {:induction false} LeBytesRoundTrip(n: nat, width: nat)
    requires n < Power256(width)
    ensures LittleEndian(LeBytes(n, width)) == n
  {
    if width > 0 {
      LeBytesRoundTrip(n / 0x100, width - 1);
      assert LeBytes(n, width)[1..] == LeBytes(n / 0x100, width - 1);
    }
  }

  lemma Le32RoundTrip(n: nat)
    requires n < 0x1_0000_0000
    ensures LittleEndian(Le32(n)) == n
  {
    assert Power256(4) == 0x100 * Power256(3) && Power256(3) == 0x100 * Power256(2);
    LeBytesRoundTrip(n, 4);
  }

  /** A load command: its number, and the bytes after its two fixed fields. */
  datatype LoadCommand = LoadCommand(cmd: nat, payload: seq<Byte>) {
    ghost predicate Fits() {
      cmd < 0x1_0000_0000 && |payload| + 8 < 0x1_0000_0000 && (cmd == LC_SYMTAB ==> |payload| == 16)
    }

    function Bytes(): (s: seq<Byte>)
      requires Fits()
      ensures |s| == 8 + |payload|
    {
      Le32(cmd) + Le32(8 + |payload|) + payload
    }
  }

  /** A symbol entry: string index, type, and the eleven bytes of section, description and value. */
  datatype Symbol = Symbol(strx: nat, kind: Byte, tail: seq<Byte>) {
    ghost predicate Fits() {
      strx < 0x1_0000_0000 && |tail| == 11
    }

    function Bytes(): (s: seq<Byte>)
      requires Fits()
      ensures |s| == 16
    {
      Le32(strx) + [kind] + tail
    }
  }

  ghost predicate CommandsFit(cmds: seq<LoadCommand>) {
    forall i | 0 <= i < |cmds| :: cmds[i].Fits()
  }

  ghost predicate SymbolsFit(syms: seq<Symbol>) {
    forall i | 0 <= i < |syms| :: syms[i].Fits()
  }

  ghost function CommandBytes(cmds: seq<LoadCommand>): seq<Byte>
    requires CommandsFit(cmds)
  {
    if cmds == [] then [] else CommandBytes(cmds[..|cmds| - 1]) + cmds[|cmds| - 1].Bytes()
  }

  ghost function SymbolBytes(syms: seq<Symbol>): (s: seq<Byte>)
    requires SymbolsFit(syms)
    ensures |s| == 16 * |syms|
  {
    if syms == [] then [] else SymbolBytes(syms[..|syms| - 1]) + syms[|syms| - 1].Bytes()
  }

  function SymtabPayload(t: Symtab): (s: seq<Byte>)
    requires t.symoff < 0x1_0000_0000 && t.count < 0x1_0000_0000 && t.stroff < 0x1_0000_0000 && t.strsize < 0x1_0000_0000
    ensures |s| == 16
  {
    Le32(t.symoff) + Le32(t.count) + Le32(t.stroff) + Le32(t.strsize)
  }

  /** A whole file: a header that counts the commands, the commands with one symbol table among
      them, and symbols and strings anywhere in the file, in any order. */
  datatype Layout = Layout(cmds: seq<LoadCommand>, symtab: nat, table: Symtab, syms: seq<Symbol>, strings: seq<Byte>) {

    ghost predicate WellFormed() {
      && CommandsFit(cmds) && SymbolsFit(syms) && |cmds| <= MAX_COMMANDS
      && |CommandBytes(cmds)| <= MAX_COMMAND_BYTES
      && symtab < |cmds| && (forall i | 0 <= i < |cmds| :: cmds[i].cmd == LC_SYMTAB <==> i == symtab)
      && table.symoff < 0x1_0000_0000 && table.stroff < 0x1_0000_0000
      && table.count == |syms| && |syms| * 16 <= MAX_TABLE_BYTES
      && table.strsize == |strings| <= MAX_TABLE_BYTES
      && cmds[symtab].payload == SymtabPayload(table)
    }

    /** The file is an image of this layout. */
    ghost predicate Image(file: seq<Byte>)
      requires WellFormed()
    {
      var commands := CommandBytes(cmds);
      && |file| >= 32 + |commands| && file[..4] == MAGIC
      && U32(file, 16) == |cmds| && U32(file, 20) == |commands|
      && file[32..32 + |commands|] == commands
      && table.symoff + 16 * |syms| <= |file| && file[table.symoff..table.symoff + 16 * |syms|] == SymbolBytes(syms)
      && table.stroff + |strings| <= |file| && file[table.stroff..table.stroff + |strings|] == strings
    }

    ghost predicate Names(i: nat, name: seq<Byte>)
      requires i < |syms|
    {
      syms[i].kind == N_OSO && NamedAt(strings, syms[i].strx, name)
    }
  }

  /** Where command `i` starts. */
  ghost function Start(cmds: seq<LoadCommand>, i: nat): nat
    requires i <= |cmds|
  {
    if i == 0 then 0 else Start(cmds, i - 1) + 8 + |cmds[i - 1].payload|
  }

  lemma {:induction false} StartOfPrefix(cmds: seq<LoadCommand>, n: nat, i: nat)
    requires i <= n <= |cmds|
    ensures Start(cmds[..n], i) == Start(cmds, i)
    decreases i
  {
    if i > 0 {
      StartOfPrefix(cmds, n, i - 1);
    }
  }

  lemma {:induction false} CommandBytesLength(cmds: seq<LoadCommand>)
    requires CommandsFit(cmds)
    ensures |CommandBytes(cmds)| == Start(cmds, |cmds|)
  {
    if cmds != [] {
      var n := |cmds| - 1;
      CommandBytesLength(cmds[..n]);
      StartOfPrefix(cmds, n, n);
    }
  }

  lemma {:induction false} CommandBytesAt(cmds: seq<LoadCommand>, i: nat)
    requires CommandsFit(cmds) && i < |cmds|
    ensures |CommandBytes(cmds)| == Start(cmds, |cmds|)
    ensures Start(cmds, i + 1) <= Start(cmds, |cmds|)
    ensures CommandBytes(cmds)[Start(cmds, i)..Start(cmds, i + 1)] == cmds[i].Bytes()
  {
    var n := |cmds| - 1;
    var front, last := cmds[..n], cmds[n].Bytes();
    CommandBytesLength(cmds);
    CommandBytesLength(front);
    StartOfPrefix(cmds, n, n);
    assert CommandBytes(cmds) == CommandBytes(front) + last;
    if i < n {
      CommandBytesAt(front, i);
      StartOfPrefix(cmds, n, i);
      StartOfPrefix(cmds, n, i + 1);
      SliceOfFront(CommandBytes(front), last, Start(cmds, i), Start(cmds, i + 1));
    }
  }

  lemma SliceOfFront(a: seq<Byte>, b: seq<Byte>, i: nat, j: nat)
    requires i <= j <= |a|
    ensures (a + b)[i..j] == a[i..j]
  {
  }

  lemma U32Within(s: seq<Byte>, o: nat, n: nat, k: nat, value: nat)
    requires o + n <= |s| && k + 4 <= n && value < 0x1_0000_0000
    requires s[o..][..n][k..k + 4] == Le32(value)
    ensures U32(s, o + k) == value
  {
    assert s[o + k..o + k + 4] == s[o..][..n][k..k + 4];
    Le32RoundTrip(value);
  }

  /** What the reader sees of a command in its buffer. */
  lemma CommandFields(s: seq<Byte>, o: nat, c: LoadCommand)
    requires c.Fits() && o + 8 + |c.payload| <= |s| && s[o..o + 8 + |c.payload|] == c.Bytes()
    ensures Reads(s, o, c)
  {
    var b, n := c.Bytes(), 8 + |c.payload|;
    assert b[0..4] == Le32(c.cmd) && b[4..8] == Le32(n) && b[8..] == c.payload;
    assert s[o..][..n] == b;
    U32Within(s, o, n, 0, c.cmd);
    U32Within(s, o, n, 4, n);
    assert s[o + 8..o + n] == s[o..o + n][8..];
  }

  /** The command at `o` in the buffer reads as `c`. */
  ghost predicate Reads(s: seq<Byte>, o: nat, c: LoadCommand) {
    && CommandAccepted(s, o) && U32(s, o) == c.cmd && U32(s, o + 4) == 8 + |c.payload|
    && s[o + 8..o + 8 + |c.payload|] == c.payload
  }

  /** Each command stands in the buffer at its start. */
  ghost predicate LaidOut(s: seq<Byte>, cmds: seq<LoadCommand>) {
    forall i: nat {:trigger Reads(s, Start(cmds, i), cmds[i])} | i < |cmds| :: Reads(s, Start(cmds, i), cmds[i])
  }

  lemma CommandsAreLaidOut(cmds: seq<LoadCommand>)
    requires CommandsFit(cmds)
    ensures LaidOut(CommandBytes(cmds), cmds)
  {
    forall i: nat {:trigger Reads(CommandBytes(cmds), Start(cmds, i), cmds[i])} | i < |cmds| ensures Reads(CommandBytes(cmds), Start(cmds, i), cmds[i]) {
      CommandBytesAt(cmds, i);
      CommandFields(CommandBytes(cmds), Start(cmds, i), cmds[i]);
    }
  }

  /** The walk over laid-out commands visits each of them. */
  lemma {:induction false} OffsetOfLayout(s: seq<Byte>, cmds: seq<LoadCommand>, i: nat)
    requires i <= |cmds| && LaidOut(s, cmds)
    ensures OffsetAfter(s, i) == Some(Start(cmds, i))
  {
    if i > 0 {
      OffsetOfLayout(s, cmds, i - 1);
      assert Reads(s, Start(cmds, i - 1), cmds[i - 1]);
    }
  }

  /** The n-th command the walk visits is not a symbol table. */
  ghost predicate PassesBy(s: seq<Byte>, n: nat) {
    && OffsetAfter(s, n).Some? && CommandAccepted(s, OffsetAfter(s, n).value)
    && U32(s, OffsetAfter(s, n).value) != LC_SYMTAB
  }

  lemma {:induction false} SymtabStays(s: seq<Byte>, symtab: nat, i: nat, o: nat)
    requires symtab < i && OffsetAfter(s, symtab) == Some(o) && CommandAccepted(s, o) && U32(s, o) == LC_SYMTAB
    requires OffsetAfter(s, i).Some?
    requires forall j | symtab < j < i :: PassesBy(s, j)
    ensures o + 24 <= |s| && LastSymtab(s, i) == Some(SymtabAt(s, o))
  {
    if symtab < i - 1 {
      assert PassesBy(s, i - 1);
      SymtabStays(s, symtab, i - 1, o);
    }
  }

  /** It passes by every command that is not a symbol table, and takes up the last that is. */
  lemma SymtabOfLayout(s: seq<Byte>, cmds: seq<LoadCommand>, symtab: nat, i: nat)
    requires symtab < i <= |cmds| && LaidOut(s, cmds)
    requires cmds[symtab].cmd == LC_SYMTAB && forall j | symtab < j < |cmds| :: cmds[j].cmd != LC_SYMTAB
    ensures OffsetAfter(s, i).Some? && Start(cmds, symtab) + 24 <= |s|
    ensures LastSymtab(s, i) == Some(SymtabAt(s, Start(cmds, symtab)))
  {
    OffsetOfLayout(s, cmds, i);
    OffsetOfLayout(s, cmds, symtab);
    assert Reads(s, Start(cmds, symtab), cmds[symtab]);
    forall j | symtab < j < i ensures PassesBy(s, j) {
      OffsetOfLayout(s, cmds, j);
      assert Reads(s, Start(cmds, j), cmds[j]);
    }
    SymtabStays(s, symtab, i, Start(cmds, symtab));
  }

  lemma SymtabRoundTrip(s: seq<Byte>, o: nat, t: Symtab)
    requires t.symoff < 0x1_0000_0000 && t.count < 0x1_0000_0000 && t.stroff < 0x1_0000_0000 && t.strsize < 0x1_0000_0000
    requires o + 24 <= |s| && s[o + 8..o + 24] == SymtabPayload(t)
    ensures SymtabAt(s, o) == t
  {
    var p := SymtabPayload(t);
    assert s[o + 8..][..16] == p;
    assert p[0..4] == Le32(t.symoff) && p[4..8] == Le32(t.count) && p[8..12] == Le32(t.stroff) && p[12..16] == Le32(t.strsize);
    U32Within(s, o + 8, 16, 0, t.symoff);
    U32Within(s, o + 8, 16, 4, t.count);
    U32Within(s, o + 8, 16, 8, t.stroff);
    U32Within(s, o + 8, 16, 12, t.strsize);
  }

  lemma {:induction false} SymbolFields(syms: seq<Symbol>, i: nat)
    requires SymbolsFit(syms) && i < |syms|
    ensures U32(SymbolBytes(syms), 16 * i) == syms[i].strx
    ensures SymbolBytes(syms)[16 * i + 4] == syms[i].kind
  {
    var front := syms[..|syms| - 1];
    if i < |syms| - 1 {
      SymbolFields(front, i);
      assert SymbolBytes(syms)[16 * i..16 * i + 4] == SymbolBytes(front)[16 * i..16 * i + 4];
    } else {
      var b := syms[i].Bytes();
      assert SymbolBytes(syms)[16 * i..] == b;
      assert b[0..4] == Le32(syms[i].strx) && b[4] == syms[i].kind;
      U32Within(SymbolBytes(syms), 16 * i, 16, 0, syms[i].strx);
    }
  }

  lemma LayoutSymtab(l: Layout)
    requires l.WellFormed()
    ensures OffsetAfter(CommandBytes(l.cmds), |l.cmds|).Some? && LastSymtab(CommandBytes(l.cmds), |l.cmds|) == Some(l.table)
  {
    var commands := CommandBytes(l.cmds);
    CommandsAreLaidOut(l.cmds);
    SymtabOfLayout(commands, l.cmds, l.symtab, |l.cmds|);
    assert Reads(commands, Start(l.cmds, l.symtab), l.cmds[l.symtab]);
    SymtabRoundTrip(commands, Start(l.cmds, l.symtab), l.table);
  }

  /** The reader finds the commands, the symbol table, the strings and the symbols of the layout. */
  lemma LayoutTables(l: Layout, file: seq<Byte>)
    requires l.WellFormed() && l.Image(file)
    ensures HeaderAccepted(file) && OffsetAfter(ReadAt(file, 32, U32(file, 20)), U32(file, 16)).Some?
    ensures LastSymtab(ReadAt(file, 32, U32(file, 20)), U32(file, 16)) == Some(l.table) && TablesAccepted(file, l.table)
    ensures ReadAt(file, l.table.stroff, l.table.strsize) == l.strings
    ensures ReadAt(file, l.table.symoff, l.table.count * 16) == SymbolBytes(l.syms)
  {
    var commands := CommandBytes(l.cmds);
    assert ReadAt(file, 32, |commands|) == commands;
    LayoutSymtab(l);
    assert ReadAt(file, l.table.stroff, l.table.strsize) == l.strings;
    assert ReadAt(file, l.table.symoff, l.table.count * 16) == SymbolBytes(l.syms);
  }

  /** On any well-formed layout whose N_OSO entries all point at decodable names, the image is
      readable, and its names are exactly the names laid out. */
  lemma LayoutIsRead(l: Layout, file: seq<Byte>, utf8: seq<Byte> -> bool)
    requires l.WellFormed() && l.Image(file)
    requires forall i: nat | i < |l.syms| && l.syms[i].kind == N_OSO :: exists name :: l.Names(i, name) && utf8(name)
    ensures Readable(file, utf8)
    ensures forall names :: OsoNames(file, names) <==>
      forall name :: name in names <==> exists i: nat | i < |l.syms| :: l.Names(i, name)
  {
    LayoutTables(l, file);
    var symbols := SymbolBytes(l.syms);
    forall i: nat, name | i < |l.syms|
      ensures EntryNames(l.strings, symbols, i, name) <==> l.Names(i, name)
    {
      SymbolFields(l.syms, i);
    }
    forall i: nat | i < |l.syms| && IsOso(symbols, i)
      ensures HasName(l.strings, symbols, utf8, i)
    {
      SymbolFields(l.syms, i);
      var name :| l.Names(i, name) && utf8(name);
      assert EntryNames(l.strings, symbols, i, name);
    }
  }

  // ----- The smallest image that names given objects -----

  /** A NUL, then each name with its NUL. */
  function NameTable(names: seq<seq<Byte>>): seq<Byte> {
    if names == [] then [0] else NameTable(names[..|names| - 1]) + names[|names| - 1] + [0]
  }

  const OSO_TAIL: seq<Byte> := [0, 0, 0, 1, 0, 0, 0, 0, 0, 0, 0]

  function NameSymbols(names: seq<seq<Byte>>): (syms: seq<Symbol>)
    ensures |syms| == |names|
  {
    if names == [] then []
    else
      var front := names[..|names| - 1];
      NameSymbols(front) + [Symbol(|NameTable(front)|, N_OSO, OSO_TAIL)]
  }

  function NameSymtab(names: seq<seq<Byte>>): Symtab {
    Symtab(56, |names|, 56 + 16 * |names|, |NameTable(names)|)
  }

  ghost predicate Nameable(names: seq<seq<Byte>>) {
    && (forall i | 0 <= i < |names| :: 0 !in names[i])
    && 16 * |names| <= MAX_TABLE_BYTES && |NameTable(names)| <= MAX_TABLE_BYTES
  }

  ghost function NameLayout(names: seq<seq<Byte>>): Layout
    requires Nameable(names)
  {
    Layout([LoadCommand(LC_SYMTAB, SymtabPayload(NameSymtab(names)))], 0, NameSymtab(names), NameSymbols(names), NameTable(names))
  }

  function NameHeader(): (h: seq<Byte>)
    ensures |h| == 32
  {
    MAGIC + [0, 0, 0, 0, 0, 0, 0, 0, 2, 0, 0, 0] + Le32(1) + Le32(24) + [0, 0, 0, 0, 0, 0, 0, 0]
  }

  lemma {:induction false} NameSymbolsFit(names: seq<seq<Byte>>)
    requires |NameTable(names)| <= MAX_TABLE_BYTES
    ensures SymbolsFit(NameSymbols(names))
  {
    if names != [] {
      NameSymbolsFit(names[..|names| - 1]);
    }
  }

  ghost function NameImage(names: seq<seq<Byte>>): seq<Byte>
    requires Nameable(names)
  {
    NameSymbolsFit(names);
    NameHeader() + LoadCommand(LC_SYMTAB, SymtabPayload(NameSymtab(names))).Bytes() + SymbolBytes(NameSymbols(names)) + NameTable(names)
  }

  lemma {:induction false} NamedInTable(names: seq<seq<Byte>>, i: nat)
    requires i < |names| && forall j | 0 <= j < |names| :: 0 !in names[j]
    ensures NameSymbols(names)[i].kind == N_OSO
    ensures NamedAt(NameTable(names), NameSymbols(names)[i].strx, names[i])
  {
    var front, last := names[..|names| - 1], names[|names| - 1];
    var earlier, table := NameTable(front), NameTable(names);
    if i < |front| {
      NamedInTable(front, i);
      var start := NameSymbols(front)[i].strx;
      assert table[start..start + |names[i]|] == earlier[start..start + |names[i]|];
    } else {
      assert table[|earlier|..|earlier| + |last|] == last;
    }
  }

  lemma NameLayoutWellFormed(names: seq<seq<Byte>>)
    requires Nameable(names)
    ensures NameLayout(names).WellFormed()
    ensures CommandBytes(NameLayout(names).cmds) == NameLayout(names).cmds[0].Bytes()
  {
    var l := NameLayout(names);
    NameSymbolsFit(names);
    assert l.cmds[..0] == [] && CommandBytes([]) == [];
    assert CommandBytes(l.cmds) == [] + l.cmds[0].Bytes();
  }

  lemma FourParts(a: seq<Byte>, b: seq<Byte>, c: seq<Byte>, d: seq<Byte>)
    ensures
      var s, i, j := a + b + c + d, |a| + |b|, |a| + |b| + |c|;
      s[..|a|] == a && s[|a|..i] == b && s[i..j] == c && s[j..j + |d|] == d
  {
  }

  lemma NameHeaderFields(file: seq<Byte>)
    requires |file| >= 32 && file[..32] == NameHeader()
    ensures file[..4] == MAGIC && U32(file, 16) == 1 && U32(file, 20) == 24
  {
    var h := NameHeader();
    assert file[..4] == h[..4] == MAGIC;
    assert file[16..20] == h[16..20] == Le32(1);
    assert file[20..24] == h[20..24] == Le32(24);
    Le32RoundTrip(1);
    Le32RoundTrip(24);
  }

  lemma NameImageFits(names: seq<seq<Byte>>)
    requires Nameable(names)
    ensures NameLayout(names).WellFormed() && NameLayout(names).Image(NameImage(names))
  {
    NameLayoutWellFormed(names);
    var l, file := NameLayout(names), NameImage(names);
    FourParts(NameHeader(), l.cmds[0].Bytes(), SymbolBytes(l.syms), l.strings);
    NameHeaderFields(file);
  }

  /** When every symbol of a laid-out image carries the name of the same position, the image is read
      as exactly those names. */
  lemma NamesOfImage(l: Layout, file: seq<Byte>, names: seq<seq<Byte>>, utf8: seq<Byte> -> bool)
    requires l.WellFormed() && l.Image(file) && |l.syms| == |names|
    requires forall i: nat | i < |names| :: l.Names(i, names[i]) && utf8(names[i])
    ensures Readable(file, utf8) && OsoNames(file, Elements(names))
  {
    forall i: nat | i < |l.syms| && l.syms[i].kind == N_OSO
      ensures exists name :: l.Names(i, name) && utf8(name)
    {
      assert l.Names(i, names[i]) && utf8(names[i]);
    }
    LayoutIsRead(l, file, utf8);
    forall name ensures name in Elements(names) <==> exists i: nat | i < |names| :: l.Names(i, name) {
      if i: nat :| i < |names| && l.Names(i, name) {
        NameIsUnique(l.strings, l.syms[i].strx, name, names[i]);
      }
    }
  }

  /** Reading back the smallest image of any list of names gives exactly those names. */
  lemma NameImageRoundTrip(names: seq<seq<Byte>>, utf8: seq<Byte> -> bool)
    requires Nameable(names) && forall i | 0 <= i < |names| :: utf8(names[i])
    ensures Readable(NameImage(names), utf8) && OsoNames(NameImage(names), Elements(names))
  {
    NameImageFits(names);
    forall i: nat | i < |names| ensures NameLayout(names).Names(i, names[i]) {
      NamedInTable(names, i);
    }
    NamesOfImage(NameLayout(names), NameImage(names), names, utf8);
  }
}

/** The region table of a build: its rows, and the paths and ids of its files. */
module CsIdTable {
  import opened Collections
  import opened Text
  import opened RegionKeys

  // ----- Rows of cs_id.txt ---------------------------------------------------------------

  datatype CodeSection = CodeSection(kind: Kind, line: int, fid: int, name: string)

  type FileMapping = map<int, string>

  function Word(text: string): (w: string)
    ensures |w| <= |text|
    ensures text != [] && !IsSpace(text[0]) ==> w != []
  {
    if text == [] || IsSpace(text[0]) then [] else [text[0]] + Word(text[1..])
  }

  /** `line.split()` */
  function Fields(line: string): seq<string>
    decreases |line|
  {
    if line == [] then []
    else if IsSpace(line[0]) then Fields(line[1..])
    else [Word(line)] + Fields(line[|Word(line)|..])
  }

  function ParseFields(f: seq<string>): Option<(int, CodeSection)> {
    if |f| < 4 || (f[1] != "loop" && f[1] != "func") then None
    else
      var csid, number, fid := ParseInt(f[0]), ParseInt(f[2]), ParseInt(f[3]);
      if csid.None? || number.None? || fid.None? then None
      else
        Some((csid.value, CodeSection(if f[1] == "loop" then LOOP else FUNCTION, number.value, fid.value,
                                      if |f| > 4 then f[4] else "")))
  }

  function ParseRow(line: string): Option<(int, CodeSection)> {
    ParseFields(Fields(line))
  }

  function ParsedRows(lines: seq<string>): seq<Option<(int, CodeSection)>> {
    seq(|lines|, i requires 0 <= i < |lines| => ParseRow(lines[i]))
  }

  /** A later row for an id wins; malformed rows are skipped. */
  function TableOf(rows: seq<Option<(int, CodeSection)>>): map<int, CodeSection> {
    if rows == [] then map[]
    else
      var before := TableOf(rows[..|rows| - 1]);
      match rows[|rows| - 1]
      case None => before
      case Some((csid, section)) => before[csid := section]
  }

  function CsIdOf(lines: seq<string>): map<int, CodeSection> {
    TableOf(ParsedRows(lines))
  }

  /** The line is a row for `id`: four fields or more, of which the second is one of two words and
      three are integers; a fifth is the name. */
  ghost predicate Parses(line: string, id: int, section: CodeSection) {
    var f := Fields(line);
    && |f| >= 4
    && ((f[1] == "loop" && section.kind == LOOP) || (f[1] == "func" && section.kind == FUNCTION))
    && ParseInt(f[0]) == Some(id) && ParseInt(f[2]) == Some(section.line) && ParseInt(f[3]) == Some(section.fid)
    && section.name == if |f| > 4 then f[4] else ""
  }

  lemma ParseRowExactly(line: string, id: int, section: CodeSection)
    ensures ParseRow(line) == Some((id, section)) <==> Parses(line, id, section)
  {}

  ghost predicate IsRowFor(lines: seq<string>, i: int, id: int, section: CodeSection) {
    0 <= i < |lines| && Parses(lines[i], id, section)
  }

  ghost predicate HasRow(lines: seq<string>, id: int) {
    exists i, section :: IsRowFor(lines, i, id, section)
  }

  /** Some line is a row for `id` and gives the section; no line after it is a row for `id`. */
  ghost predicate LastSays(lines: seq<string>, id: int, section: CodeSection) {
    exists i :: IsRowFor(lines, i, id, section) && forall j, other :: j > i ==> !IsRowFor(lines, j, id, other)
  }

  type Rows = seq<Option<(int, CodeSection)>>

  ghost predicate HasAt(rows: Rows, i: int, id: int, section: CodeSection) {
    0 <= i < |rows| && rows[i] == Some((id, section))
  }

  ghost predicate NoneAfter(rows: Rows, i: int, id: int) {
    forall j, other :: j > i ==> !HasAt(rows, j, id, other)
  }

  lemma {:induction false} LatestInTable(rows: Rows, id: int) returns (i: int)
    ensures NoneAfter(rows, i, id)
    ensures if id in TableOf(rows) then HasAt(rows, i, id, TableOf(rows)[id]) else i == -1
  {
    if rows == [] {
      i := -1;
    } else {
      var n := |rows| - 1;
      i := LatestInTable(rows[..n], id);
      forall j, other ensures HasAt(rows, j, id, other) <==> HasAt(rows[..n], j, id, other) || (j == n && HasAt(rows, n, id, other)) {}
      if rows[n].Some? && rows[n].value.0 == id {
        i := n;
      }
    }
  }

  lemma RowsOf(lines: seq<string>, i: int, id: int, section: CodeSection)
    ensures HasAt(ParsedRows(lines), i, id, section) <==> IsRowFor(lines, i, id, section)
  {
    if 0 <= i < |lines| {
      ParseRowExactly(lines[i], id, section);
    }
  }

  /** The table has the ids of the lines that are rows, each with what its last row says. */
  lemma LastRowWins(lines: seq<string>, id: int, section: CodeSection)
    ensures id in CsIdOf(lines) <==> HasRow(lines, id)
    ensures id in CsIdOf(lines) && CsIdOf(lines)[id] == section <==> LastSays(lines, id, section)
  {
    var last := LatestInTable(ParsedRows(lines), id);
    forall i, other ensures HasAt(ParsedRows(lines), i, id, other) <==> IsRowFor(lines, i, id, other) {
      RowsOf(lines, i, id, other);
    }
    if id in CsIdOf(lines) {
      assert IsRowFor(lines, last, id, CsIdOf(lines)[id]);
      if i :| IsRowFor(lines, i, id, section) && forall j, other :: j > i ==> !IsRowFor(lines, j, id, other) {
        assert i == last;
      }
    }
  }

  /** Of the lines that are rows for an id the last one counts; other lines are skipped. */
  method ParseCsId(lines: seq<string>) returns (regions: map<int, CodeSection>)
    ensures regions == CsIdOf(lines)
    ensures forall id :: id in regions <==> HasRow(lines, id)
    ensures forall id, section :: LastSays(lines, id, section) <==> id in regions && regions[id] == section
  {
    ghost var rows := ParsedRows(lines);
    regions := map[];
    for i := 0 to |lines|
      invariant regions == TableOf(rows[..i])
    {
      assert rows[..i + 1][..i] == rows[..i];
      match ParseRow(lines[i])
      case None =>
      case Some((csid, section)) => regions := regions[csid := section];
    }
    assert rows[..|lines|] == rows;
    forall id, section ensures LastSays(lines, id, section) <==> id in regions && regions[id] == section {
      LastRowWins(lines, id, section);
    }
    forall id ensures id in regions <==> HasRow(lines, id) {
      LastRowWins(lines, id, CodeSection(LOOP, 0, 0, ""));
    }
  }

  function Row(id: int, k: RegionKey, fid: int): string {
    var head := IntToString(id) + " ";
    var tail := IntToString(k.line) + " " + IntToString(fid);
    if k.kind == FUNCTION then head + "func " + tail + " " + k.name else head + "loop " + tail
  }

  predicate Solid(text: string) {
    forall c :: c in text ==> !IsSpace(c)
  }

  lemma WordFirst(line: string)
    requires line != [] && !IsSpace(line[0])
    ensures Fields(line) == [Word(line)] + Fields(line[|Word(line)|..])
  {}

  /** White space separates fields. */
  lemma {:induction false} FieldsConcat(a: string, space: char, b: string)
    requires IsSpace(space)
    ensures Fields(a + [space] + b) == Fields(a) + Fields(b)
    decreases |a|
  {
    var t := a + [space] + b;
    if a == [] {
      assert t[1..] == b;
    } else if IsSpace(a[0]) {
      assert t[1..] == a[1..] + [space] + b;
      FieldsConcat(a[1..], space, b);
    } else {
      Regrouped(a, [space], b);
      WordStops(a, [space] + b);
      var n := |Word(a)|;
      assert t[n..] == a[n..] + [space] + b;
      FieldsConcat(a[n..], space, b);
      WordFirst(t);
      WordFirst(a);
      Regrouped([Word(a)], Fields(a[n..]), Fields(b));
    }
  }

  lemma {:induction false} WordStops(a: string, rest: string)
    requires rest != [] && IsSpace(rest[0])
    ensures Word(a + rest) == Word(a)
  {
    if a == [] || IsSpace(a[0]) {
    } else {
      assert (a + rest)[1..] == a[1..] + rest;
      WordStops(a[1..], rest);
    }
  }

  lemma {:induction false} WordOfSolid(a: string)
    requires Solid(a)
    ensures Word(a) == a
    ensures Fields(a) == if a == [] then [] else [a]
  {
    if a == [] {
    } else {
      WordOfSolid(a[1..]);
      assert a == [a[0]] + a[1..];
      assert a[|a|..] == [];
    }
  }

  lemma IntegersAreSolid(n: int)
    ensures Fields(IntToString(n)) == [IntToString(n)]
  {
    IntegersComeBack(n);
    WordOfSolid(IntToString(n));
  }

  lemma FourFields(i: string, kind: string, n: string, f: string)
    requires Fields(i) == [i] && Fields(kind) == [kind] && Fields(n) == [n] && Fields(f) == [f]
    ensures Fields(i + " " + kind + " " + n + " " + f) == [i, kind, n, f]
  {
    FieldsConcat(i, ' ', kind);
    FieldsConcat(i + " " + kind, ' ', n);
    FieldsConcat(i + " " + kind + " " + n, ' ', f);
  }

  lemma RowShape(id: int, k: RegionKey, fid: int)
    ensures var base := IntToString(id) + " " + (if k.kind == FUNCTION then "func" else "loop") + " "
                      + IntToString(k.line) + " " + IntToString(fid);
            Row(id, k, fid) == if k.kind == FUNCTION then base + " " + k.name else base
  {
  }

  lemma RowFields(id: int, k: RegionKey, fid: int)
    ensures Fields(Row(id, k, fid)) == Head(id, k.kind, k.line, fid) + if k.kind == FUNCTION then Fields(k.name) else []
    ensures var (i, n, f) := (IntToString(id), IntToString(k.line), IntToString(fid));
            match k.kind
            case FUNCTION => Fields(Row(id, k, fid)) == [i, "func", n, f] + Fields(k.name)
            case LOOP => Fields(Row(id, k, fid)) == [i, "loop", n, f]
  {
    var kind := if k.kind == FUNCTION then "func" else "loop";
    IntegersAreSolid(id);
    IntegersAreSolid(k.line);
    IntegersAreSolid(fid);
    WordOfSolid(kind);
    FourFields(IntToString(id), kind, IntToString(k.line), IntToString(fid));
    RowShape(id, k, fid);
    if k.kind == FUNCTION {
      FieldsConcat(IntToString(id) + " " + kind + " " + IntToString(k.line) + " " + IntToString(fid), ' ', k.name);
    }
  }

  function Head(id: int, kind: Kind, line: int, fid: int): seq<string> {
    [IntToString(id), if kind == FUNCTION then "func" else "loop", IntToString(line), IntToString(fid)]
  }

  lemma FieldsParse(id: int, kind: Kind, line: int, fid: int, more: seq<string>)
    ensures ParseFields(Head(id, kind, line, fid) + more)
         == Some((id, CodeSection(kind, line, fid, if more == [] then "" else more[0])))
  {
    IntegersComeBack(id);
    IntegersComeBack(line);
    IntegersComeBack(fid);
  }

  /** What a row keeps of a name: nothing for a loop, the first word for a function. */
  function ReadName(k: RegionKey): string {
    if k.kind == LOOP || Fields(k.name) == [] then "" else Fields(k.name)[0]
  }

  /** A row that was written parses back, up to the name. */
  lemma RowComesBack(id: int, k: RegionKey, fid: int)
    ensures ParseRow(Row(id, k, fid)) == Some((id, CodeSection(k.kind, k.line, fid, ReadName(k))))
  {
    RowFields(id, k, fid);
    FieldsParse(id, k.kind, k.line, fid, if k.kind == FUNCTION then Fields(k.name) else []);
    if k.kind == LOOP {
      assert Head(id, k.kind, k.line, fid) + [] == Head(id, k.kind, k.line, fid);
    }
  }

  lemma {:induction false} WordIsSolid(text: string)
    ensures Solid(Word(text))
  {
    if text == [] || IsSpace(text[0]) {
    } else {
      WordIsSolid(text[1..]);
    }
  }

  lemma {:induction false} FieldsAreSolid(line: string)
    ensures forall w :: w in Fields(line) ==> Solid(w)
    decreases |line|
  {
    if line == [] {
    } else if IsSpace(line[0]) {
      FieldsAreSolid(line[1..]);
    } else {
      WordIsSolid(line);
      FieldsAreSolid(line[|Word(line)|..]);
    }
  }

  /** The name comes back unless it is that of a loop or holds white space. */
  lemma NameComesBackExactly(k: RegionKey)
    ensures ReadName(k) == k.name <==> Solid(k.name) && (k.kind == LOOP ==> k.name == "")
    ensures Solid(ReadName(k)) && (k.kind == LOOP ==> ReadName(k) == "")
  {
    FieldsAreSolid(k.name);
    if Solid(k.name) {
      WordOfSolid(k.name);
    }
  }

  lemma {:induction false} ParsedNamesAreSolid(rows: seq<Option<(int, CodeSection)>>)
    requires forall row: (int, CodeSection) :: Some(row) in rows ==> Solid(row.1.name)
    ensures forall id :: id in TableOf(rows) ==> Solid(TableOf(rows)[id].name)
  {
    if rows == [] {
    } else {
      var n := |rows| - 1;
      assert rows[n] in rows;
      forall row | row in rows[..n] ensures row in rows {}
      ParsedNamesAreSolid(rows[..n]);
    }
  }

  /** No name in a parsed table holds white space. */
  lemma TableNamesAreSolid(lines: seq<string>)
    ensures forall id :: id in CsIdOf(lines) ==> Solid(CsIdOf(lines)[id].name)
  {
    var rows := ParsedRows(lines);
    forall row: (int, CodeSection) | Some(row) in rows ensures Solid(row.1.name) {
      var i :| 0 <= i < |rows| && rows[i] == Some(row);
      FieldsAreSolid(lines[i]);
    }
    ParsedNamesAreSolid(rows);
  }

  // ----- Paths and file ids -----------------------------------------------------------

  /** The path of a file id, or a placeholder that names the id. */
  function PathOf(mapping: FileMapping, fid: int): string {
    if fid in mapping then mapping[fid] else "file_" + IntToString(fid)
  }

  function KeyOf(section: CodeSection, mapping: FileMapping): RegionKey {
    RegionKey(PathOf(mapping, section.fid), section.line, section.kind, section.name)
  }

  function ResolveKeys(csId: map<int, CodeSection>, mapping: FileMapping): map<int, RegionKey> {
    map csid | csid in csId :: KeyOf(csId[csid], mapping)
  }

  /** Every path of the mapping, with the lowest of its ids. */
  ghost predicate Inverts(inverted: map<string, int>, mapping: FileMapping) {
    && (forall f :: f in mapping ==> mapping[f] in inverted)
    && forall p :: p in inverted ==>
         inverted[p] in mapping && mapping[inverted[p]] == p && forall f :: f in mapping && mapping[f] == p ==> inverted[p] <= f
  }

  method InvertFileMapping(mapping: FileMapping) returns (inverted: map<string, int>)
    ensures Inverts(inverted, mapping)
  {
    inverted := map[];
    var todo := mapping.Keys;
    while todo != {}
      invariant todo <= mapping.Keys
      invariant forall f, g :: f in mapping && f !in todo && g in todo ==> f < g
      invariant forall p :: p in inverted ==> inverted[p] in mapping && inverted[p] !in todo && mapping[inverted[p]] == p
      invariant forall f :: f in mapping && f !in todo ==> mapping[f] in inverted && inverted[mapping[f]] <= f
      decreases |todo|
    {
      var fid := Least(todo);
      todo := todo - {fid};
      if mapping[fid] !in inverted {
        inverted := inverted[mapping[fid] := fid];
      }
    }
  }

  method Least(s: set<int>) returns (m: int)
    requires s != {}
    ensures m in s && forall x :: x in s ==> m <= x
  {
    HasElement(s);
    m :| m in s;
    var todo := s - {m};
    while todo != {}
      invariant m in s && todo <= s && forall x :: x in s && x !in todo ==> m <= x
      decreases |todo|
    {
      HasElement(todo);
      var x :| x in todo;
      todo := todo - {x};
      m := if x < m then x else m;
    }
  }

  /** The file id for a path, recognising the placeholder; 0 if there is none. */
  function FidForPath(path: string, inverted: map<string, int>): int {
    if path in inverted then inverted[path]
    else if "file_" <= path then
      match ParseInt(path[5..]) case Some(fid) => fid case None => 0
    else 0
  }

  /** The id found for a resolved path resolves to that path again, placeholders included. */
  lemma ResolvedPathComesBack(mapping: FileMapping, inverted: map<string, int>, fid: int)
    requires Inverts(inverted, mapping)
    ensures PathOf(mapping, FidForPath(PathOf(mapping, fid), inverted)) == PathOf(mapping, fid)
  {
    var path := PathOf(mapping, fid);
    if path !in inverted {
      assert path[5..] == IntToString(fid);
      IntegersComeBack(fid);
    }
  }

  ghost predicate IsPlaceholder(path: string, fid: int) {
    exists text :: path == "file_" + text && Reads(text, fid)
  }

  /** The path of an id that has none, and the id of a path that has none: the one it is the
      placeholder of, or 0. */
  lemma PlaceholderExactly(mapping: FileMapping, inverted: map<string, int>, fid: int, path: string)
    ensures fid !in mapping && fid >= 0 ==> PathOf(mapping, fid) == "file_" + NatToString(fid)
    ensures path !in inverted && IsPlaceholder(path, fid) ==> FidForPath(path, inverted) == fid
    ensures path !in inverted && (forall f :: !IsPlaceholder(path, f)) ==> FidForPath(path, inverted) == 0
  {
    if text :| path == "file_" + text && Reads(text, fid) {
      assert path[5..] == text;
      ParseIntExactly(text, fid);
    }
    if "file_" <= path && ParseInt(path[5..]).Some? {
      assert path == "file_" + path[5..];
      ParseIntExactly(path[5..], ParseInt(path[5..]).value);
      assert IsPlaceholder(path, ParseInt(path[5..]).value);
    }
  }

  /** A placeholder is no misleading path, whatever the id. */
  lemma PlaceholderNotMisleading(fid: int)
    ensures !Misleading("file_" + IntToString(fid))
  {
    IntegersComeBack(fid);
    SplitWithout("file_" + IntToString(fid), ':');
  }

  ghost predicate NotMisleading(mapping: FileMapping) {
    forall fid :: fid in mapping ==> !Misleading(mapping[fid])
  }

  lemma PathNotMisleading(mapping: FileMapping, fid: int)
    requires NotMisleading(mapping)
    ensures !Misleading(PathOf(mapping, fid))
  {
    PlaceholderNotMisleading(fid);
  }

  // ----- Writing a key to a table and reading it -------------------------------------------

  function SectionOf(k: RegionKey, inverted: map<string, int>): CodeSection {
    CodeSection(k.kind, k.line, FidForPath(k.path, inverted), ReadName(k))
  }

  /** What a key is read back as. */
  function Reread(k: RegionKey, mapping: FileMapping, inverted: map<string, int>): RegionKey {
    KeyOf(SectionOf(k, inverted), mapping)
  }

  /** A key that a table can hold and whose printed form is its own. */
  ghost predicate Proper(k: RegionKey, mapping: FileMapping) {
    && Solid(k.name) && (k.kind == LOOP ==> k.name == "") && !Misleading(k.path)
    && exists fid :: k.path == PathOf(mapping, fid)
  }

  lemma ProperIsReread(k: RegionKey, mapping: FileMapping, inverted: map<string, int>)
    requires Inverts(inverted, mapping) && Proper(k, mapping)
    ensures Reread(k, mapping, inverted) == k
  {
    NameComesBackExactly(k);
    var fid :| k.path == PathOf(mapping, fid);
    ResolvedPathComesBack(mapping, inverted, fid);
  }

  lemma RereadIsProper(k: RegionKey, mapping: FileMapping, inverted: map<string, int>)
    requires NotMisleading(mapping)
    ensures Proper(Reread(k, mapping, inverted), mapping)
  {
    NameComesBackExactly(k);
    PathNotMisleading(mapping, FidForPath(k.path, inverted));
  }

  function CsRows(keys: seq<RegionKey>, inverted: map<string, int>): seq<string> {
    seq(|keys|, i requires 0 <= i < |keys| => Row(i + 1, keys[i], FidForPath(keys[i].path, inverted)))
  }

  function RereadKeys(keys: seq<RegionKey>, mapping: FileMapping, inverted: map<string, int>): seq<RegionKey> {
    seq(|keys|, i requires 0 <= i < |keys| => Reread(keys[i], mapping, inverted))
  }

  ghost predicate IsTableOf(table: map<int, RegionKey>, keys: seq<RegionKey>) {
    && (forall id :: id in table <==> 1 <= id <= |keys|)
    && (forall id :: id in table ==> table[id] == keys[id - 1])
  }

  lemma {:induction false} NumberedRows(rows: seq<Option<(int, CodeSection)>>, sections: seq<CodeSection>)
    requires |rows| == |sections|
    requires forall i :: 0 <= i < |rows| ==> rows[i] == Some((i + 1, sections[i]))
    ensures forall id :: id in TableOf(rows) <==> 1 <= id <= |rows|
    ensures forall id :: id in TableOf(rows) ==> TableOf(rows)[id] == sections[id - 1]
  {
    if rows == [] {
    } else {
      var n := |rows| - 1;
      NumberedRows(rows[..n], sections[..n]);
      assert rows[n] == Some((n + 1, sections[n]));
    }
  }

  function Sections(keys: seq<RegionKey>, inverted: map<string, int>): seq<CodeSection> {
    seq(|keys|, i requires 0 <= i < |keys| => SectionOf(keys[i], inverted))
  }

  lemma RowsParse(keys: seq<RegionKey>, inverted: map<string, int>)
    ensures var rows, sections := ParsedRows(CsRows(keys, inverted)), Sections(keys, inverted);
            |rows| == |keys| == |sections| && forall i :: 0 <= i < |rows| ==> rows[i] == Some((i + 1, sections[i]))
  {
    var lines := CsRows(keys, inverted);
    forall i | 0 <= i < |keys|
      ensures ParsedRows(lines)[i] == Some((i + 1, Sections(keys, inverted)[i]))
    {
      RowComesBack(i + 1, keys[i], FidForPath(keys[i].path, inverted));
      assert lines[i] == Row(i + 1, keys[i], FidForPath(keys[i].path, inverted));
    }
  }

  /** Parsing and resolving the merged table gives each id from 1 to n its key as read back. */
  lemma MergedTableComesBack(keys: seq<RegionKey>, mapping: FileMapping, inverted: map<string, int>)
    ensures IsTableOf(ResolveKeys(CsIdOf(CsRows(keys, inverted)), mapping), RereadKeys(keys, mapping, inverted))
  {
    RowsParse(keys, inverted);
    NumberedRows(ParsedRows(CsRows(keys, inverted)), Sections(keys, inverted));
  }
}

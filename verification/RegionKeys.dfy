/** Build-independent region keys and their serialized form. */
module RegionKeys {
  import opened Collections
  import opened Text

  datatype Kind = LOOP | FUNCTION

  function KindText(k: Kind): string {
    match k case LOOP => "LOOP" case FUNCTION => "FUNCTION"
  }

  predicate IsKind(text: string) {
    text == "LOOP" || text == "FUNCTION"
  }

  function KindOf(text: string): Kind
    requires IsKind(text)
  {
    if text == "LOOP" then LOOP else FUNCTION
  }

  datatype RegionKey = RegionKey(path: string, line: int, kind: Kind, name: string)

  /** `path:line:KIND[:name]` */
  function Serialize(k: RegionKey): string {
    var base := k.path + ":" + IntToString(k.line) + ":" + KindText(k.kind);
    if k.name != "" then base + ":" + k.name else base
  }

  /** What is printed for a key; its line is printed in decimal digits. */
  lemma SerializedText(k: RegionKey)
    ensures k.kind == LOOP && k.name == "" ==> Serialize(k) == k.path + ":" + IntToString(k.line) + ":LOOP"
    ensures k.kind == LOOP && k.name != "" ==> Serialize(k) == k.path + ":" + IntToString(k.line) + ":LOOP:" + k.name
    ensures k.kind == FUNCTION && k.name == "" ==> Serialize(k) == k.path + ":" + IntToString(k.line) + ":FUNCTION"
    ensures k.kind == FUNCTION && k.name != "" ==> Serialize(k) == k.path + ":" + IntToString(k.line) + ":FUNCTION:" + k.name
  {
    var front := k.path + ":" + IntToString(k.line);
    Regrouped(front, ":", KindText(k.kind));
    Regrouped(front, ":" + KindText(k.kind), ":" + k.name);
    Regrouped(front + ":" + KindText(k.kind), ":", k.name);
    assert ":" + "LOOP" == ":LOOP" && ":" + "FUNCTION" == ":FUNCTION";
    Regrouped(":" + KindText(k.kind), ":", k.name);
    assert ":LOOP" + ":" == ":LOOP:" && ":FUNCTION" + ":" == ":FUNCTION:";
  }

  /** A kind token directly after an integer. */
  predicate Anchor(parts: seq<string>, position: int) {
    1 <= position < |parts| && IsKind(parts[position]) && ParseInt(parts[position - 1]).Some?
  }

  /** Scans the parts from left to right for the first anchor. */
  function KeyFrom(parts: seq<string>, position: nat): Option<RegionKey>
    requires 1 <= position
    decreases |parts| - position
  {
    if position >= |parts| then None
    else if Anchor(parts, position) then
      Some(RegionKey(Join(parts[..position - 1], ':'), ParseInt(parts[position - 1]).value,
                     KindOf(parts[position]), Join(parts[position + 1..], ':')))
    else KeyFrom(parts, position + 1)
  }

  function Deserialize(text: string): Option<RegionKey> {
    KeyFrom(Split(text, ':'), 1)
  }

  /** The path itself holds a colon-separated integer directly followed by LOOP or FUNCTION. */
  ghost predicate Misleading(path: string) {
    exists i :: Anchor(Split(path, ':'), i)
  }

  lemma {:induction false} FirstAnchor(parts: seq<string>, position: nat, first: nat)
    requires 1 <= position <= first && Anchor(parts, first)
    requires forall i :: position <= i < first ==> !Anchor(parts, i)
    ensures KeyFrom(parts, position) == Some(RegionKey(
              Join(parts[..first - 1], ':'), ParseInt(parts[first - 1]).value, KindOf(parts[first]), Join(parts[first + 1..], ':')))
    decreases first - position
  {
    if position == first {
    } else {
      FirstAnchor(parts, position + 1, first);
    }
  }

  function NameParts(k: RegionKey): seq<string> {
    if k.name == "" then [] else Split(k.name, ':')
  }

  /** The parts that serializing appends to those of the path. */
  function Suffix(k: RegionKey): seq<string> {
    [IntToString(k.line), KindText(k.kind)] + NameParts(k)
  }

  lemma SerializedParts(k: RegionKey)
    ensures Split(Serialize(k), ':') == Split(k.path, ':') + Suffix(k)
  {
    var p, line, kind := Split(k.path, ':'), IntToString(k.line), KindText(k.kind);
    IntegersComeBack(k.line);
    SplitConcat(k.path, line, ':');
    SplitWithout(line, ':');
    SplitConcat(k.path + ":" + line, kind, ':');
    SplitWithout(kind, ':');
    var base := k.path + ":" + line + ":" + kind;
    Regrouped(p, [line], [kind]);
    assert Split(base, ':') == p + [line, kind];
    if k.name != "" {
      SplitConcat(base, k.name, ':');
      Regrouped(p, [line, kind], NameParts(k));
      assert Serialize(k) == base + [':'] + k.name;
    } else {
      assert Serialize(k) == base && Suffix(k) == [line, kind];
    }
  }

  lemma NamePartsJoin(k: RegionKey)
    ensures Join(NameParts(k), ':') == k.name
  {
    JoinSplit(k.name, ':');
  }

  lemma LineIsNoKind(line: int)
    ensures !IsKind(IntToString(line))
  {
    IntegersComeBack(line);
    var s := IntToString(line);
    assert s[0] in s;
  }

  /** With no anchor in `p`, the parts appended to it hold the first one. */
  lemma KeyAfter(p: seq<string>, line: string, kind: string, name: seq<string>)
    requires p != [] && (forall i :: !Anchor(p, i))
    requires ParseInt(line).Some? && !IsKind(line) && IsKind(kind)
    ensures KeyFrom(p + ([line, kind] + name), 1)
         == Some(RegionKey(Join(p, ':'), ParseInt(line).value, KindOf(kind), Join(name, ':')))
  {
    var parts, first := p + ([line, kind] + name), |p| + 1;
    assert parts[first - 1] == line && parts[first] == kind;
    forall i | 1 <= i < first ensures !Anchor(parts, i) {
      assert !Anchor(p, i);
      assert parts[i - 1] == p[i - 1] && parts[i] == if i < |p| then p[i] else line;
    }
    FirstAnchor(parts, 1, first);
    assert parts[..first - 1] == p && parts[first + 1..] == name;
  }

  lemma UnmisledRoundTrip(k: RegionKey)
    requires !Misleading(k.path)
    ensures Deserialize(Serialize(k)) == Some(k)
  {
    var p, line, kind := Split(k.path, ':'), IntToString(k.line), KindText(k.kind);
    SerializedParts(k);
    LineIsNoKind(k.line);
    IntegersComeBack(k.line);
    KeyAfter(p, line, kind, NameParts(k));
    JoinSplit(k.path, ':');
    NamePartsJoin(k);
  }

  lemma AnchorStays(p: seq<string>, q: seq<string>, i: int)
    requires Anchor(p, i)
    ensures Anchor(p + q, i)
  {
    assert (p + q)[i] == p[i] && (p + q)[i - 1] == p[i - 1];
  }

  lemma MisledRoundTrip(k: RegionKey)
    requires Misleading(k.path)
    ensures Deserialize(Serialize(k)).Some? && |Deserialize(Serialize(k)).value.path| < |k.path|
  {
    var p, q := Split(k.path, ':'), Suffix(k);
    var parts := p + q;
    SerializedParts(k);
    var i :| Anchor(p, i);
    AnchorStays(p, q, i);
    var first := LeastAnchor(parts, i);
    FirstAnchor(parts, 1, first);
    JoinSplit(k.path, ':');
    PrefixIsShorter(p, first - 1);
    assert parts[..first - 1] == p[..first - 1];
  }

  /** The round trip works for exactly the keys whose path is not misleading. Names may hold
      anything, colons and kind tokens included. */
  lemma RoundTripExactly(k: RegionKey)
    ensures Deserialize(Serialize(k)) == Some(k) <==> !Misleading(k.path)
  {
    if Misleading(k.path) {
      MisledRoundTrip(k);
    } else {
      UnmisledRoundTrip(k);
    }
  }

  lemma LeastAnchor(parts: seq<string>, i: int) returns (first: nat)
    requires Anchor(parts, i)
    ensures 1 <= first <= i && Anchor(parts, first) && forall j :: 1 <= j < first ==> !Anchor(parts, j)
  {
    first := 1;
    while !Anchor(parts, first)
      invariant 1 <= first <= i
      invariant forall j :: 1 <= j < first ==> !Anchor(parts, j)
      decreases i - first
    {
      first := first + 1;
    }
  }

  lemma PrefixIsShorter(p: seq<string>, m: nat)
    requires m + 1 < |p|
    ensures |Join(p[..m], ':')| < |Join(p, ':')|
  {
    assert p == p[..m] + p[m..];
    if m > 0 {
      JoinConcat(p[..m], p[m..], ':');
    }
  }

  /** The scan takes the first anchor. */
  lemma {:induction false} KeyFromFirst(parts: seq<string>, position: nat) returns (first: nat)
    requires 1 <= position && KeyFrom(parts, position).Some?
    requires forall i :: 1 <= i < position ==> !Anchor(parts, i)
    ensures 1 <= first < |parts| && KeyFrom(parts, position).value.path == Join(parts[..first - 1], ':')
    ensures Anchor(parts, first) && KeyFrom(parts, position).value == RegionKey(
              Join(parts[..first - 1], ':'), ParseInt(parts[first - 1]).value, KindOf(parts[first]), Join(parts[first + 1..], ':'))
    ensures forall i :: 1 <= i < first ==> !Anchor(parts, i)
    decreases |parts| - position
  {
    first := position;
    if !Anchor(parts, position) {
      first := KeyFromFirst(parts, position + 1);
    }
  }

  /** A text is a key if and only if LOOP or FUNCTION follows an integer in it; the first such place
      separates the path from the line, the kind and the name. */
  lemma DeserializeExactly(text: string)
    ensures var parts := Split(text, ':');
            match Deserialize(text)
            case None =>
              forall i :: 1 <= i < |parts| && (parts[i] == "LOOP" || parts[i] == "FUNCTION") ==> ParseInt(parts[i - 1]).None?
            case Some(k) => exists i :: FirstKindAt(parts, i) && Parts(parts, i, k)
  {
    var parts := Split(text, ':');
    if Deserialize(text).Some? {
      var k := Deserialize(text).value;
      var i := KeyFromFirst(parts, 1);
      forall j | 1 <= j < i && IsKind(parts[j]) ensures ParseInt(parts[j - 1]).None? {
        assert !Anchor(parts, j);
      }
      assert FirstKindAt(parts, i);
      assert ParseInt(parts[i - 1]).Some? && KeyFrom(parts, 1) == Some(k);
      assert Parts(parts, i, k);
    } else {
      NoAnchorFound(parts, 1);
    }
  }

  /** A kind after an integer, and no other before it. */
  ghost predicate FirstKindAt(parts: seq<string>, i: int) {
    && 1 <= i < |parts| && (parts[i] == "LOOP" || parts[i] == "FUNCTION") && ParseInt(parts[i - 1]).Some?
    && forall j :: 1 <= j < i && (parts[j] == "LOOP" || parts[j] == "FUNCTION") ==> ParseInt(parts[j - 1]).None?
  }

  ghost predicate Parts(parts: seq<string>, i: int, k: RegionKey)
    requires 1 <= i < |parts|
  {
    && k.path == Join(parts[..i - 1], ':') && Some(k.line) == ParseInt(parts[i - 1])
    && (k.kind == LOOP <==> parts[i] == "LOOP") && k.name == Join(parts[i + 1..], ':')
  }

  lemma {:induction false} NoAnchorFound(parts: seq<string>, position: nat)
    requires 1 <= position && KeyFrom(parts, position).None?
    ensures forall i :: position <= i < |parts| && IsKind(parts[i]) ==> ParseInt(parts[i - 1]).None?
    decreases |parts| - position
  {
    if position < |parts| {
      NoAnchorFound(parts, position + 1);
    }
  }

  /** So a deserialized path holds none. */
  lemma DeserializedIsNotMisleading(text: string)
    requires Deserialize(text).Some?
    ensures !Misleading(Deserialize(text).value.path)
  {
    var parts := Split(text, ':');
    var first := KeyFromFirst(parts, 1);
    var front := parts[..first - 1];
    PartsWithout(text, ':');
    if front == [] {
      assert Split("", ':') == [[]];
    } else {
      SplitJoin(front, ':');
    }
    forall i ensures !Anchor(Split(Join(front, ':'), ':'), i) {
      if 1 <= i < |front| {
        assert front[i] == parts[i] && front[i - 1] == parts[i - 1];
        assert !Anchor(parts, i);
      }
    }
  }
}

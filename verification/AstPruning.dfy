/** Pruning a clang AST dump to the declarations of a project. */
module AstPruning {

  import opened Collections

  /** A position; the file is left out where it is that of the preceding sibling. */
  datatype Place = Place(file: Option<string>)

  /** A node's `loc`: absent, a plain position, or the positions of a macro expansion. */
  datatype Loc = NoLoc | Loc(own: Place, expansion: Option<Place>, spelling: Option<Place>)

  /** `rest` stands for everything else a node holds. */
  datatype Node = Node(rest: string, loc: Loc, inner: seq<Node>)

  /** The macro use site before its definition site before the position itself. */
  function Resolved(loc: Loc): Place {
    match loc
    case NoLoc => Place(None)
    case Loc(own, expansion, spelling) =>
      if expansion.Some? then expansion.value else if spelling.Some? then spelling.value else own
  }

  function OwnFile(node: Node, inherited: Option<string>): Option<string> {
    var file := Resolved(node.loc).file;
    if file.Some? then file else inherited
  }

  predicate IsKept(file: Option<string>, root: string) {
    match file
    case None => true
    case Some(f) => !("/" <= f) || root <= f
  }

  /** Writes the file into the position that was resolved, where it was inherited. */
  function BakedLoc(loc: Loc, file: Option<string>): Loc {
    if file.None? || loc.NoLoc? || Resolved(loc).file.Some? then loc
    else if loc.expansion.Some? then loc.(expansion := Some(Place(file)))
    else if loc.spelling.Some? then loc.(spelling := Some(Place(file)))
    else loc.(own := Place(file))
  }

  function FilteredNode(node: Node, own: Option<string>, root: string): Node
    decreases node, 1
  {
    Node(node.rest, BakedLoc(node.loc, own), Filtered(node.inner, own, root))
  }

  function Filtered(children: seq<Node>, inherited: Option<string>, root: string): seq<Node>
    decreases children, 0
  {
    if children == [] then []
    else
      var own := OwnFile(children[0], inherited);
      var rest := Filtered(children[1..], own, root);
      if IsKept(own, root) then [FilteredNode(children[0], own, root)] + rest else rest
  }

  /** Keeps the children whose file is kept; the context advances past the dropped ones too. */
  method FilterChildren(children: seq<Node>, inherited: Option<string>, root: string) returns (kept: seq<Node>)
    ensures kept == Filtered(children, inherited, root)
    decreases children, 0
  {
    kept := [];
    var ctx := inherited;
    for i := 0 to |children|
      invariant kept + Filtered(children[i..], ctx, root) == Filtered(children, inherited, root)
    {
      var own := OwnFile(children[i], ctx);
      assert children[i..][1..] == children[i + 1..];
      if IsKept(own, root) {
        var child := FilterSubtree(children[i], own, root);
        assert kept + ([child] + Filtered(children[i + 1..], own, root)) == kept + [child] + Filtered(children[i + 1..], own, root);
        kept := kept + [child];
      }
      ctx := own;
    }
  }

  method FilterSubtree(node: Node, own: Option<string>, root: string) returns (r: Node)
    ensures r == FilteredNode(node, own, root)
    decreases node, 1
  {
    var inner := FilterChildren(node.inner, own, root);
    r := Node(node.rest, BakedLoc(node.loc, own), inner);
  }

  function NormalizedRoot(root: string): (r: string)
    ensures r != "" && r[|r| - 1] == '/'
    ensures r == root || (r == root + "/" && !exists front :: root == front + "/")
  {
    if root != "" && root[|root| - 1] == '/' then root else root + "/"
  }

  /** A translation unit itself is always kept. */
  method FilterTranslationUnit(unit: Node, root: string) returns (r: Node)
    ensures r == unit.(inner := Filtered(unit.inner, None, NormalizedRoot(root)))
  {
    var inner := FilterChildren(unit.inner, None, NormalizedRoot(root));
    r := unit.(inner := inner);
  }

  /** The translation units that one dump file holds, one after the other. */
  method FilterAstDump(units: seq<Node>, root: string) returns (pruned: seq<Node>)
    ensures |pruned| == |units|
    ensures forall i :: 0 <= i < |units| ==> pruned[i] == units[i].(inner := Filtered(units[i].inner, None, NormalizedRoot(root)))
  {
    pruned := [];
    for i := 0 to |units|
      invariant |pruned| == i
      invariant forall j :: 0 <= j < i ==> pruned[j] == units[j].(inner := Filtered(units[j].inner, None, NormalizedRoot(root)))
    {
      var unit := FilterTranslationUnit(units[i], root);
      pruned := pruned + [unit];
    }
  }

  // ----- What a dump means: every node with the file it resolves to -----------------------

  datatype Located = Located(rest: string, file: Option<string>, inner: seq<Located>)

  function LocatedNode(node: Node, own: Option<string>): Located
    decreases node, 1
  {
    Located(node.rest, own, Locate(node.inner, own))
  }

  function Locate(children: seq<Node>, inherited: Option<string>): seq<Located>
    decreases children, 0
  {
    if children == [] then []
    else
      var own := OwnFile(children[0], inherited);
      [LocatedNode(children[0], own)] + Locate(children[1..], own)
  }

  /** The nodes whose own file and those of all their ancestors are kept, in order. */
  function Pruned(children: seq<Located>, root: string): seq<Located>
    decreases children
  {
    if children == [] then []
    else
      var head := children[0];
      var rest := Pruned(children[1..], root);
      if IsKept(head.file, root) then [head.(inner := Pruned(head.inner, root))] + rest else rest
  }

  /** The file a kept node resolves to does not depend on what precedes it after pruning: it is
      baked in, or the node has no location and the latest kept sibling has the same file. */
  lemma BakedFile(node: Node, inherited: Option<string>, inherited': Option<string>)
    requires var own := OwnFile(node, inherited);
             node.loc.NoLoc? || own.None? ==> inherited' == inherited
    ensures var own := OwnFile(node, inherited);
            OwnFile(node.(loc := BakedLoc(node.loc, own)), inherited') == own
  {
  }

  /** Pruning preserves meaning: the pruned dump resolves to the pruned resolution of the dump,
      so every kept node keeps its file, and the kept nodes are exactly those they should be. */
  lemma {:induction false} PruningPreservesFiles(children: seq<Node>, inherited: Option<string>, root: string)
    ensures Locate(Filtered(children, inherited, root), inherited) == Pruned(Locate(children, inherited), root)
    decreases children, 0
  {
    LocateFiltered(children, inherited, inherited, root);
  }

  /** `last` is what a reader of the pruned dump has resolved last; it may lag behind the
      context of the original while nodes are being dropped. */
  lemma {:induction false} LocateFiltered(children: seq<Node>, inherited: Option<string>, last: Option<string>, root: string)
    requires IsKept(inherited, root) ==> last == inherited
    ensures Locate(Filtered(children, inherited, root), last) == Pruned(Locate(children, inherited), root)
    decreases children, 0
  {
    if children == [] {
    } else {
      var node := children[0];
      var own := OwnFile(node, inherited);
      var located := Locate(children, inherited);
      assert located[1..] == Locate(children[1..], own);
      if IsKept(own, root) {
        var kept := FilteredNode(node, own, root);
        BakedFile(node, inherited, last);
        assert OwnFile(kept, last) == own;
        LocateFiltered(node.inner, own, own, root);
        LocateFiltered(children[1..], own, own, root);
        var filtered := Filtered(children, inherited, root);
        assert filtered[0] == kept && filtered[1..] == Filtered(children[1..], own, root);
      } else {
        LocateFiltered(children[1..], own, last, root);
      }
    }
  }

  /** The first child has a file of its own, or there is none. */
  predicate StartsWithFile(children: seq<Node>) {
    children == [] || Resolved(children[0].loc).file.Some?
  }

  /** The first child that is kept carries its file, so what precedes it makes no difference. */
  lemma FirstKeptStands(children: seq<Node>, own: Option<string>, inherited: Option<string>, root: string)
    requires children != [] && own == OwnFile(children[0], None) && own.Some? && IsKept(own, root)
    ensures Locate(Filtered(children, own, root), inherited) == Locate(Filtered(children, own, root), own)
  {
    var filtered := Filtered(children, own, root);
    assert filtered[0] == FilteredNode(children[0], own, root);
    assert OwnFile(filtered[0], inherited) == OwnFile(filtered[0], own);
  }

  lemma OwnStart(children: seq<Node>, inherited: Option<string>, root: string)
    requires StartsWithFile(children)
    ensures Locate(Filtered(children, None, root), inherited) == Pruned(Locate(children, inherited), root)
  {
    if children == [] {
    } else {
      var own := OwnFile(children[0], None);
      assert Filtered(children, None, root) == Filtered(children, own, root);
      assert Locate(children, inherited) == Locate(children, own);
      if IsKept(own, root) {
        LocateFiltered(children, own, own, root);
        FirstKeptStands(children, own, inherited, root);
      } else {
        LocateFiltered(children, own, inherited, root);
      }
    }
  }

  /** The filter starts a unit's children without a file, a reader with the unit's own. As long as
      that is kept, the difference does not show. */
  lemma {:induction false} LateContext(children: seq<Node>, file: string, root: string)
    requires IsKept(Some(file), root)
    ensures Locate(Filtered(children, None, root), Some(file)) == Pruned(Locate(children, Some(file)), root)
    decreases children
  {
    if StartsWithFile(children) {
      OwnStart(children, Some(file), root);
    } else {
      var node, located := children[0], Locate(children, Some(file));
      assert located[1..] == Locate(children[1..], Some(file));
      var filtered := Filtered(children, None, root);
      assert filtered[0] == FilteredNode(node, None, root) && filtered[1..] == Filtered(children[1..], None, root);
      LateContext(node.inner, file, root);
      LateContext(children[1..], file, root);
    }
  }

  lemma {:induction false} PrunedIsKept(children: seq<Located>, root: string)
    ensures forall node :: node in Pruned(children, root) ==> IsKept(node.file, root)
  {
    if children == [] {
    } else {
      PrunedIsKept(children[1..], root);
    }
  }

  /** A whole unit, read with its own file in mind: pruning preserves the files and keeps the right
      nodes if and only if the unit has no file, or one that is kept, or its first child has one. */
  lemma UnitPreservesFilesExactly(unit: Node, root: string)
    ensures (var own := OwnFile(unit, None);
             LocatedNode(unit.(inner := Filtered(unit.inner, None, root)), own)
             == Located(unit.rest, own, Pruned(Locate(unit.inner, own), root)))
       <==> IsKept(OwnFile(unit, None), root) || StartsWithFile(unit.inner)
  {
    var own, children := OwnFile(unit, None), unit.inner;
    if own.None? {
      PruningPreservesFiles(children, None, root);
    } else if StartsWithFile(children) {
      OwnStart(children, own, root);
    } else if IsKept(own, root) {
      LateContext(children, own.value, root);
    } else {
      var filtered := Filtered(children, None, root);
      assert filtered[0] == FilteredNode(children[0], None, root);
      var located := Locate(filtered, own);
      assert located[0] == LocatedNode(filtered[0], OwnFile(filtered[0], own));
      assert filtered[0].loc == children[0].loc;
      assert located[0].file == own && located[0] in located;
      PrunedIsKept(Locate(children, own), root);
    }
  }

  /** A unit whose own file is outside the project, and a child that takes its file from it: the
      filter keeps the child, though its file is not kept. */
  lemma UnitOutsideKeepsTooMuch(rest: string, child: string)
    ensures var unit := Node(rest, Loc(Place(Some("/usr/x.c")), None, None), [Node(child, NoLoc, [])]);
            var own := Some("/usr/x.c");
            && OwnFile(unit, None) == own && !IsKept(own, "/p/")
            && Filtered(unit.inner, None, "/p/") == unit.inner
            && LocatedNode(unit, own).inner != Pruned(Locate(unit.inner, own), "/p/")
  {
    var own, inner := Some("/usr/x.c"), [Node(child, NoLoc, [])];
    assert !("/p/" <= "/usr/x.c") by {
      assert "/p/"[1] == 'p' && "/usr/x.c"[1] == 'u';
    }
    assert inner[1..] == [];
    PrunedIsKept(Locate(inner, own), "/p/");
    var located := Locate(inner, own);
    assert located[0] == LocatedNode(inner[0], own) && located[0] in located;
  }

  /** Every node of a pruned dump is kept where it stands. */
  ghost predicate AllKept(children: seq<Node>, inherited: Option<string>, root: string)
    decreases children
  {
    children == [] ||
    var own := OwnFile(children[0], inherited);
    && IsKept(own, root)
    && (own.Some? && children[0].loc.Loc? ==> Resolved(children[0].loc).file.Some?)
    && AllKept(children[0].inner, own, root)
    && AllKept(children[1..], own, root)
  }

  lemma {:induction false} FilteredIsKept(children: seq<Node>, inherited: Option<string>, last: Option<string>, root: string)
    requires IsKept(inherited, root) ==> last == inherited
    ensures AllKept(Filtered(children, inherited, root), last, root)
    decreases children
  {
    if children == [] {
    } else {
      var node := children[0];
      var own := OwnFile(node, inherited);
      if IsKept(own, root) {
        BakedFile(node, inherited, last);
        FilteredIsKept(node.inner, own, own, root);
        FilteredIsKept(children[1..], own, own, root);
        var filtered := Filtered(children, inherited, root);
        assert filtered[1..] == Filtered(children[1..], own, root);
      } else {
        FilteredIsKept(children[1..], own, last, root);
      }
    }
  }

  lemma {:induction false} KeptStays(children: seq<Node>, inherited: Option<string>, root: string)
    requires AllKept(children, inherited, root)
    ensures Filtered(children, inherited, root) == children
    decreases children
  {
    if children == [] {
    } else {
      var own := OwnFile(children[0], inherited);
      KeptStays(children[0].inner, own, root);
      KeptStays(children[1..], own, root);
      assert BakedLoc(children[0].loc, own) == children[0].loc;
    }
  }

  /** Filtering a second time changes nothing. */
  lemma FilteringIsIdempotent(children: seq<Node>, inherited: Option<string>, root: string)
    ensures Filtered(Filtered(children, inherited, root), inherited, root) == Filtered(children, inherited, root)
  {
    FilteredIsKept(children, inherited, inherited, root);
    KeptStays(Filtered(children, inherited, root), inherited, root);
  }

  // ----- Which file decides ----------------------------------------------------------------

  /** Of the positions of a macro expansion its use site counts, whatever file the definition is in;
      where that names no file, the file of what precedes it. */
  ghost predicate StandsIn(loc: Loc, inherited: Option<string>, file: string) {
    match loc
    case NoLoc => inherited == Some(file)
    case Loc(_, Some(use), _) => use.file == Some(file) || (use.file == None && inherited == Some(file))
    case Loc(_, None, Some(def)) => def.file == Some(file) || (def.file == None && inherited == Some(file))
    case Loc(own, None, None) => own.file == Some(file) || (own.file == None && inherited == Some(file))
  }

  /** An absolute path that does not continue the root; a relative one is the project's own. */
  ghost predicate Outside(file: string, root: string) {
    file != "" && file[0] == '/' && forall rest :: file != root + rest
  }

  lemma OutsideIsDropped(file: string, root: string)
    ensures IsKept(Some(file), root) <==> !Outside(file, root)
  {
    if root <= file {
      assert file == root + file[|root|..];
    }
  }

  /** A node is dropped if and only if it stands in a file outside the project. */
  lemma DroppedExactly(node: Node, inherited: Option<string>, root: string)
    ensures Filtered([node], inherited, root) == [] <==> exists file :: StandsIn(node.loc, inherited, file) && Outside(file, root)
  {
    var own := OwnFile(node, inherited);
    if own.Some? {
      assert StandsIn(node.loc, inherited, own.value);
      OutsideIsDropped(own.value, root);
    }
    forall file | StandsIn(node.loc, inherited, file) ensures own == Some(file) {}
  }

  /** A macro used in the project and defined outside is kept; used outside and defined in the
      project, it is dropped. */
  lemma UseSiteDecides(rest: string, own: Place, use: string, def: string, inner: seq<Node>, inherited: Option<string>, root: string)
    ensures var node := Node(rest, Loc(own, Some(Place(Some(use))), Some(Place(Some(def)))), inner);
            Filtered([node], inherited, root) == [] <==> Outside(use, root)
  {
    var node := Node(rest, Loc(own, Some(Place(Some(use))), Some(Place(Some(def)))), inner);
    DroppedExactly(node, inherited, root);
    assert StandsIn(node.loc, inherited, use);
  }

  /** Only where the file was inherited is it written down, and in the position that counts. */
  lemma InheritedIsWritten(node: Node, file: string, root: string)
    requires !Outside(file, root) && node.loc.Loc?
    ensures Filtered([node.(loc := Loc(Place(None), None, None))], Some(file), root)
         == [Node(node.rest, Loc(Place(Some(file)), None, None), Filtered(node.inner, Some(file), root))]
    ensures Filtered([node.(loc := node.loc.(expansion := Some(Place(None))))], Some(file), root)
         == [Node(node.rest, node.loc.(expansion := Some(Place(Some(file)))), Filtered(node.inner, Some(file), root))]
    ensures Filtered([node.(loc := node.loc.(expansion := None, spelling := Some(Place(None))))], Some(file), root)
         == [Node(node.rest, node.loc.(expansion := None, spelling := Some(Place(Some(file)))), Filtered(node.inner, Some(file), root))]
  {
    OutsideIsDropped(file, root);
  }
}

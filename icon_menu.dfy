/** The "Icon" submenu of the list box's context menu: how the flat icon
    table becomes a menu of top-level groups, separators and numbered
    leaves, which entries get a check mark, and the skin a click selects. */
module IconMenu {
  import opened Wrappers

  /** An entry of the icon table: caption and image resource file. A
      caption starting with `+` opens a group; an empty file is a separator. */
  datatype IconEntry = IconEntry(text: string, file: string)

  /** The `Name` of a leaf: `iconMenuItem_default`, or `iconMenuItem_` and a number. */
  datatype LeafName = DefaultName | Numbered(n: nat)

  /** A menu entry. A leaf's `tag` is its image file (`""` for the default,
      `"OTHER"` for the file chooser). */
  datatype MenuNode = Separator | Leaf(text: string, name: LeafName, tag: string)
                    | Group(text: string, children: seq<MenuNode>)

  /** The captions of the two fixed leaves; the source takes them from its
      localised string table. */
  const AutoCaption: string := "Auto"
  const OtherCaption: string := "Other..."

  /** The builder's state while it walks the table: the top-level entries so
      far, whether the last of them is the group now receiving entries
      (`parentItem`), and the next leaf number (`iconindex`). */
  datatype Builder = Builder(top: seq<MenuNode>, inGroup: bool, next: nat)

  /** Groups sit only at the top level and hold no groups. */
  predicate Shallow(nodes: seq<MenuNode>) {
    forall i :: 0 <= i < |nodes| ==> nodes[i].Group? ==> NoGroups(nodes[i].children)
  }

  predicate NoGroups(nodes: seq<MenuNode>) {
    forall i :: 0 <= i < |nodes| ==> !nodes[i].Group?
  }

  predicate WellFormed(b: Builder) {
    Shallow(b.top) && (b.inGroup ==> |b.top| > 0 && b.top[|b.top| - 1].Group?)
  }

  predicate OpensGroup(e: IconEntry) {
    e.file != "" && |e.text| > 0 && e.text[0] == '+'
  }

  predicate IsLeafEntry(e: IconEntry) {
    e.file != "" && !OpensGroup(e)
  }

  /** Add a separator or leaf where entries currently go: the open group, or
      the top level before the first group. */
  function Put(b: Builder, node: MenuNode): (r: Builder)
    requires WellFormed(b) && !node.Group?
    ensures WellFormed(r) && r.inGroup == b.inGroup && r.next == b.next
  {
    if b.inGroup then
      var k := |b.top| - 1;
      var g := b.top[k];
      Builder(b.top[..k] + [Group(g.text, g.children + [node])], true, b.next)
    else Builder(b.top + [node], false, b.next)
  }

  /** One step of the builder loop. */
  function AddIcon(b: Builder, e: IconEntry): (r: Builder)
    requires WellFormed(b)
    ensures WellFormed(r)
    ensures r.next == b.next + (if IsLeafEntry(e) then 1 else 0)
  {
    if e.file == "" then Put(b, Separator)
    else if OpensGroup(e) then Builder(b.top + [Group(e.text[1..], [])], true, b.next)
    else Put(b, Leaf(e.text, Numbered(b.next), e.file)).(next := b.next + 1)
  }

  function Fold(b: Builder, entries: seq<IconEntry>): (r: Builder)
    requires WellFormed(b)
    ensures WellFormed(r)
    decreases |entries|
  {
    if entries == [] then b else Fold(AddIcon(b, entries[0]), entries[1..])
  }

  /** The dropdown of the "Icon" menu item: the default leaf and a separator,
      the table, then a separator and "Other...". */
  function BuildIconMenu(entries: seq<IconEntry>): (menu: seq<MenuNode>)
    ensures Shallow(menu)
    ensures |menu| >= 4 && menu[0] == Leaf(AutoCaption, DefaultName, "") && menu[1] == Separator
    ensures menu[|menu| - 1] == Leaf(OtherCaption, Numbered(0), "OTHER")
  {
    var start := Builder([Leaf(AutoCaption, DefaultName, ""), Separator], false, 1);
    var built := Fold(start, entries);
    FoldKeepsPrefix(start, entries);
    built.top + [Separator, Leaf(OtherCaption, Numbered(0), "OTHER")]
  }

  /** Folding never touches the first two entries, which are not groups. */
  lemma {:induction false} FoldKeepsPrefix(b: Builder, entries: seq<IconEntry>)
    requires WellFormed(b) && |b.top| >= 2 && !b.top[0].Group? && !b.top[1].Group?
    ensures var r := Fold(b, entries); |r.top| >= 2 && r.top[..2] == b.top[..2]
    decreases |entries|
  {
    if entries != [] {
      var b' := AddIcon(b, entries[0]);
      assert b'.top[..2] == b.top[..2];
      FoldKeepsPrefix(b', entries[1..]);
    }
  }

  /** The leaves of a menu in the order they appear, with their names and tags. */
  function Leaves(nodes: seq<MenuNode>): seq<(LeafName, string)>
    decreases nodes
  {
    if nodes == [] then []
    else
      assert nodes[0] in nodes;
      var head := match nodes[0]
        case Separator => []
        case Leaf(_, name, tag) => [(name, tag)]
        case Group(_, children) => Leaves(children);
      head + Leaves(nodes[1..])
  }

  lemma {:induction false} LeavesAppend(a: seq<MenuNode>, b: seq<MenuNode>)
    ensures Leaves(a + b) == Leaves(a) + Leaves(b)
    decreases a
  {
    if a != [] {
      assert (a + b)[0] == a[0];
      assert (a + b)[1..] == a[1..] + b;
      LeavesAppend(a[1..], b);
    } else {
      assert a + b == b;
    }
  }

  /** The leaves the table should give: one per leaf entry, numbered
      consecutively from `n`, tagged with the entry's file. */
  function Expected(entries: seq<IconEntry>, n: nat): seq<(LeafName, string)>
    decreases |entries|
  {
    if entries == [] then []
    else if IsLeafEntry(entries[0]) then [(Numbered(n), entries[0].file)] + Expected(entries[1..], n + 1)
    else Expected(entries[1..], n)
  }

  lemma PutLeaves(b: Builder, node: MenuNode)
    requires WellFormed(b) && !node.Group?
    ensures Leaves(Put(b, node).top) == Leaves(b.top) + Leaves([node])
  {
    if b.inGroup {
      var k := |b.top| - 1;
      var g := b.top[k];
      assert b.top == b.top[..k] + [g];
      LeavesAppend(b.top[..k], [g]);
      LeavesAppend(b.top[..k], [Group(g.text, g.children + [node])]);
      LeavesAppend(g.children, [node]);
      assert Leaves([g]) == Leaves(g.children);
      assert Leaves([Group(g.text, g.children + [node])]) == Leaves(g.children + [node]);
    } else {
      LeavesAppend(b.top, [node]);
    }
  }

  lemma {:induction false} FoldLeaves(b: Builder, entries: seq<IconEntry>)
    requires WellFormed(b)
    ensures Leaves(Fold(b, entries).top) == Leaves(b.top) + Expected(entries, b.next)
    decreases |entries|
  {
    if entries != [] {
      var e := entries[0];
      var b' := AddIcon(b, e);
      if e.file == "" {
        PutLeaves(b, Separator);
      } else if OpensGroup(e) {
        LeavesAppend(b.top, [Group(e.text[1..], [])]);
      } else {
        PutLeaves(b, Leaf(e.text, Numbered(b.next), e.file));
      }
      FoldLeaves(b', entries[1..]);
    }
  }

  /** Every leaf of the table appears in the menu in table order, numbered
      1, 2, 3, ... and tagged with its file, between the default leaf (tag
      `""`) and "Other..." (number 0, tag `"OTHER"`). Groups and separators
      take no number. */
  lemma BuiltLeaves(entries: seq<IconEntry>)
    ensures Leaves(BuildIconMenu(entries)) ==
            [(DefaultName, "")] + Expected(entries, 1) + [(Numbered(0), "OTHER")]
  {
    var start := Builder([Leaf(AutoCaption, DefaultName, ""), Separator], false, 1);
    FoldLeaves(start, entries);
    var built := Fold(start, entries);
    LeavesAppend(built.top, [Separator, Leaf(OtherCaption, Numbered(0), "OTHER")]);
    assert start.top[1..] == [Separator] && [Separator][1..] == [];
    assert Leaves(start.top) == [(DefaultName, "")];
    var tail := [Separator, Leaf(OtherCaption, Numbered(0), "OTHER")];
    var other := [Leaf(OtherCaption, Numbered(0), "OTHER")];
    assert tail[1..] == other && other[1..] == [];
    assert Leaves(other) == [(Numbered(0), "OTHER")];
    assert Leaves(tail) == [] + Leaves(other);
  }

  /** The numbers `Expected` hands out run from `n` upwards without gaps. */
  lemma {:induction false} ExpectedNumbers(entries: seq<IconEntry>, n: nat)
    ensures forall i :: 0 <= i < |Expected(entries, n)| ==> Expected(entries, n)[i].0 == Numbered(n + i)
    decreases |entries|
  {
    if entries != [] {
      ExpectedNumbers(entries[1..], if IsLeafEntry(entries[0]) then n + 1 else n);
    }
  }

  /** Whether `SetContextMenuItems` checks a string-tagged entry: the default
      when the skin is empty, otherwise the entry whose tag is the skin. */
  predicate CheckedFor(tag: string, skin: Option<string>) {
    (tag == "" && (skin == None || skin == Some(""))) || skin == Some(tag)
  }

  /** The check marks `SetContextMenuItems` sets on the dropdown's direct
      entries: `Some(checked)` for a leaf, `None` for an entry it does not
      touch. Groups are skipped, so leaves inside them are never updated. */
  function IconChecks(menu: seq<MenuNode>, skin: Option<string>): (r: seq<Option<bool>>)
    ensures |r| == |menu|
    ensures forall i :: 0 <= i < |menu| ==> (r[i].Some? <==> menu[i].Leaf?)
    ensures forall i :: 0 <= i < |menu| && r[i] == Some(true) ==>
              menu[i].tag == (if skin == None || skin == Some("") then "" else skin.value)
  {
    if menu == [] then []
    else [if menu[0].Leaf? then Some(CheckedFor(menu[0].tag, skin)) else None] + IconChecks(menu[1..], skin)
  }

  /** The skin a click on an icon leaf sets: its tag, or no skin for the
      default. */
  function SkinFromTag(tag: string): (skin: Option<string>)
    ensures skin == None <==> tag == ""
  {
    if tag != "" then Some(tag) else None
  }

  /** After choosing a top-level leaf, that leaf is the one checked the next
      time the menu opens, together with any other leaf of the same tag. */
  lemma ChosenIconIsChecked(menu: seq<MenuNode>, i: int)
    requires 0 <= i < |menu| && menu[i].Leaf?
    ensures IconChecks(menu, SkinFromTag(menu[i].tag))[i] == Some(true)
    ensures forall j :: 0 <= j < |menu| && menu[j].Leaf? ==>
              (IconChecks(menu, SkinFromTag(menu[i].tag))[j] == Some(true) <==> menu[j].tag == menu[i].tag)
  {
    IconChecksAt(menu, SkinFromTag(menu[i].tag));
  }

  lemma {:induction false} IconChecksAt(menu: seq<MenuNode>, skin: Option<string>)
    ensures forall j :: 0 <= j < |menu| && menu[j].Leaf? ==> IconChecks(menu, skin)[j] == Some(CheckedFor(menu[j].tag, skin))
    decreases |menu|
  {
    if menu != [] {
      IconChecksAt(menu[1..], skin);
    }
  }
}

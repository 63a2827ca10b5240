/** Menus: the list, the selection that walks over it, and the scroll position that keeps it in view (ui.c). */
module Menu {
  import opened Wrappers
  import opened CString
  import TextLog

  /*
   A menu is a list with headers that cannot be selected, a selection that walks over
   the selectable elements in a circle, and the scroll position that keeps it in view.
   */

  const GLOBAL_HEADER := 0
  const ELEMENT := 1
  const GROUP_HEADER := 2

  const ELEMENT_HEIGHT: int := 72   // CHAR_HEIGHT * 4
  const MAX_HEIGHT: int := 480      // menu_max_height

  datatype Element = Element(id: int, groupId: int, kind: int, text: string, help: Option<string>)

  predicate Selectable(e: Element) {
    e.kind != GLOBAL_HEADER && e.kind != GROUP_HEADER
  }

  predicate AnySelectable(m: seq<Element>) {
    exists i :: 0 <= i < |m| && Selectable(m[i])
  }

  // ---------- the circle

  /** The position d steps from p around a list of n, down or up. */
  function Along(p: nat, d: nat, n: nat, down: bool): (q: nat)
    requires p < n && d < n
    ensures q < n
  {
    if down then (if p + d < n then p + d else p + d - n)
    else if d <= p then p - d else p + n - d
  }

  /** r is the first selectable position from p on, d steps away. */
  predicate NearestAt(m: seq<Element>, p: nat, down: bool, r: nat, d: nat) {
    && p < |m| && d < |m| && r == Along(p, d, |m|, down) && Selectable(m[r])
    && forall e: nat :: e < d ==> !Selectable(m[Along(p, e, |m|, down)])
  }

  ghost predicate Nearest(m: seq<Element>, p: nat, down: bool, r: nat) {
    exists d: nat :: NearestAt(m, p, down, r, d)
  }

  lemma NearestUnique(m: seq<Element>, p: nat, down: bool, r: nat, r': nat)
    requires Nearest(m, p, down, r) && Nearest(m, p, down, r')
    ensures r == r'
  {
    var d: nat :| NearestAt(m, p, down, r, d);
    var d': nat :| NearestAt(m, p, down, r', d');
    assert d == d';
  }

  /** Each position is some number of steps away. */
  lemma Reaches(p: nat, q: nat, n: nat, down: bool) returns (d: nat)
    requires p < n && q < n
    ensures d < n && Along(p, d, n, down) == q
  {
    d := if down then (if p <= q then q - p else q + n - p) else if q <= p then p - q else p + n - q;
  }

  /** Lines 1276 and 1277. */
  function Into(sel: int, n: nat): int {
    var s := if sel < 0 then n + sel else sel;
    if s >= n then s - n else s
  }

  // ---------- the scroll position

  function MenuHeight(n: nat): int {
    if n * ELEMENT_HEIGHT > MAX_HEIGHT then MAX_HEIGHT else n * ELEMENT_HEIGHT
  }

  function ScrollPos(sel: nat, n: nat): int {
    var all, height := n * ELEMENT_HEIGHT, MenuHeight(n);
    var pos := -(sel * ELEMENT_HEIGHT - height / 2 + ELEMENT_HEIGHT / 2);
    var clamped := if pos > 0 then 0 else pos;
    if clamped < -all + height then -all + height else clamped
  }

  /** The selected row is wholly inside the window, and the menu fills the window. */
  lemma SelectionVisible(sel: nat, n: nat)
    requires sel < n
    ensures 0 <= ScrollPos(sel, n) + sel * ELEMENT_HEIGHT
    ensures ScrollPos(sel, n) + (sel + 1) * ELEMENT_HEIGHT <= MenuHeight(n)
    ensures ScrollPos(sel, n) <= 0
    ensures MenuHeight(n) <= ScrollPos(sel, n) + n * ELEMENT_HEIGHT
  {
  }

  function Distance(x: int): nat { if x < 0 then -x else x }

  /** Among the positions at which the menu fills the window, the one with the row nearest to its middle. */
  lemma SelectionCentred(sel: nat, n: nat, pos: int)
    requires sel < n && MenuHeight(n) - n * ELEMENT_HEIGHT <= pos <= 0
    ensures var off := 2 * sel * ELEMENT_HEIGHT + ELEMENT_HEIGHT - MenuHeight(n);
      Distance(2 * ScrollPos(sel, n) + off) <= Distance(2 * pos + off)
  {
    assert MenuHeight(n) % 2 == 0 by {
      assert n * ELEMENT_HEIGHT == 2 * (n * 36);
    }
  }

  // ---------- one round of the selection loop

  /** The positions less than d steps away are headers. */
  predicate Passed(m: seq<Element>, p: nat, down: bool, d: nat) {
    p < |m| && d <= |m| && forall e: nat :: e < d ==> !Selectable(m[Along(p, e, |m|, down)])
  }

  /** One further, lines 1285 to 1289 and then 1276 and 1277. */
  lemma AlongNext(p: nat, d: nat, n: nat, down: bool)
    requires p < n && d + 1 < n
    ensures Into(if down then Along(p, d, n, down) + 1 else Along(p, d, n, down) - 1, n) == Along(p, d + 1, n, down)
  {
  }

  /** A header before the element that can be selected: the loop goes on. */
  lemma PassHeader(m: seq<Element>, p: nat, down: bool, d: nat, q: nat)
    requires Passed(m, p, down, d) && d <= q < |m| && Selectable(m[Along(p, q, |m|, down)])
    requires !Selectable(m[Along(p, d, |m|, down)])
    ensures d < q && Passed(m, p, down, d + 1)
  {
  }

  // ---------- the menu

  class Node {
    var element: Element
    var next: Node?

    constructor (e: Element)
      ensures element == e && next == null
    {
      element, next := e, null;
    }
  }

  class Selection {
    var menu_first: Node?
    var menu_items: nat
    var menu_sel: int
    var menu_pos: int
    ghost var spine: seq<Node>      // the list, in order
    ghost var items: seq<Element>   // its elements

    ghost predicate Valid()
      reads this, spine
    {
      && |spine| == |items|
      && menu_first == (if spine == [] then null else spine[0])
      && (forall i, j :: 0 <= i < j < |spine| ==> spine[i] != spine[j])
      && (forall i :: 0 <= i < |spine| - 1 ==> spine[i].next == spine[i + 1])
      && (spine != [] ==> spine[|spine| - 1].next == null)
      && (forall i :: 0 <= i < |spine| ==> spine[i].element == items[i])
    }

    /** The elements that the count covers. */
    ghost function Shown(): seq<Element>
      requires menu_items <= |items|
      reads this
    {
      items[..menu_items]
    }

    constructor ()
      ensures Valid() && items == [] && menu_items == 0 && menu_sel == 0
    {
      menu_first, menu_items, menu_sel, menu_pos := null, 0, 0, 0;
      spine, items := [], [];
    }

    /** The walk of lines 1278 to 1283. */
    method ElementAt(k: nat) returns (e: Element)
      requires Valid() && k < |items|
      ensures e == items[k]
    {
      var act := menu_first;
      var i := 0;
      while i != k
        invariant i <= k && act == spine[i]
        decreases k - i
      {
        i := i + 1;
        act := act.next;
      }
      e := act.element;
    }

    /** One round, d steps from p: an element that can be selected, or one step further. */
    method Round(sel: int, direction: bool, ghost p: nat, ghost d: nat, ghost q: nat) returns (s: int, okay: bool)
      requires Valid() && menu_items <= |items|
      requires var m := Shown();
        && Passed(m, p, direction, d) && d <= q < |m| && Selectable(m[Along(p, q, |m|, direction)])
        && 0 - |m| <= sel < 2 * |m| && Into(sel, |m|) == Along(p, d, |m|, direction)
      ensures var m := Shown();
        if okay then 0 <= s && NearestAt(m, p, direction, s, d)
        else
          && d < q && Passed(m, p, direction, d + 1)
          && 0 - |m| <= s < 2 * |m| && Into(s, |m|) == Along(p, d + 1, |m|, direction)
    {
      ghost var m := Shown();
      okay, s := true, sel;
      if s < 0 { s := menu_items + s; }
      if s >= menu_items { s := s - menu_items; }
      var act := ElementAt(s);
      assert act == m[s];
      if act.kind == GLOBAL_HEADER || act.kind == GROUP_HEADER {
        PassHeader(m, p, direction, d, q);
        AlongNext(p, d, |m|, direction);
        if direction { s := s + 1; } else { s := s - 1; }
        okay := false;
      }
    }

    /** The loop of lines 1274 to 1292. */
    method Find(sel: int, direction: bool) returns (s: int)
      requires Valid() && menu_items <= |items| && AnySelectable(Shown())
      requires 0 - menu_items <= sel < 2 * menu_items
      ensures 0 <= s < menu_items && Nearest(Shown(), Into(sel, menu_items), direction, s)
    {
      ghost var m := Shown();
      ghost var p: nat := Into(sel, menu_items);
      ghost var d: nat := 0;
      ghost var q := SomeDistance(m, p, direction);
      var okay := false;
      s := sel;
      while !okay
        invariant d <= q && Passed(m, p, direction, d)
        invariant if okay then 0 <= s && NearestAt(m, p, direction, s, d)
                  else 0 - |m| <= s < 2 * |m| && Into(s, |m|) == Along(p, d, |m|, direction)
        decreases if okay then 0 else 1, q - d
      {
        s, okay := Round(s, direction, p, d, q);
        d := if okay then d else d + 1;
      }
    }

    /**
     `ui_menu_select`: from the given index, headers are skipped in the direction of travel.
     The index may lie one list length outside on either side.
     */
    method Select(sel: int) returns (chosen: nat)
      requires Valid() && menu_items <= |items| && AnySelectable(Shown())
      requires 0 - menu_items <= sel < 2 * menu_items
      modifies this`menu_sel, this`menu_pos
      ensures Valid() && chosen == menu_sel < menu_items
      ensures Nearest(Shown(), Into(sel, menu_items), old(menu_sel) <= sel, menu_sel)
      ensures Shown()[menu_sel].kind != 0 && Shown()[menu_sel].kind != 2
      ensures menu_pos == ScrollPos(menu_sel, menu_items)
    {
      chosen := Find(sel, menu_sel <= sel);
      menu_sel := chosen;
      menu_pos := Scroll(chosen, menu_items);
    }

    /** Lines 1297 to 1304. */
    static method Scroll(sel: nat, n: nat) returns (menu_pos: int)
      ensures menu_pos == ScrollPos(sel, n)
    {
      var height := n * ELEMENT_HEIGHT;
      var all := height;
      if height > MAX_HEIGHT {
        height := MAX_HEIGHT;
      }
      menu_pos := -(sel * ELEMENT_HEIGHT - height / 2 + ELEMENT_HEIGHT / 2);
      if menu_pos > 0 { menu_pos := 0; }
      if menu_pos < -all + height { menu_pos := -all + height; }
    }

    /** HIGHLIGHT_DOWN and HIGHLIGHT_UP in `get_menu_selection`. */
    method Press(down: bool)
      requires Valid() && menu_items <= |items| && AnySelectable(Shown()) && 0 <= menu_sel < menu_items
      modifies this`menu_sel, this`menu_pos
      ensures Valid() && 0 <= menu_sel < menu_items && Moves(Shown(), old(menu_sel), down, menu_sel)
      ensures menu_pos == ScrollPos(menu_sel, menu_items)
    {
      var selected := if down then menu_sel + 1 else menu_sel - 1;
      var chosen := Select(selected);
    }

    /** `ui_start_menu_ext`. */
    method Clear()
      modifies this
      ensures Valid() && items == [] && menu_items == 0 && menu_sel == 0 && menu_pos == 0
    {
      menu_first, menu_items, menu_sel, menu_pos := null, 0, 0, 0;
      spine, items := [], [];
    }

    /** The walk of lines 1358 to 1360. */
    method Last() returns (last: Node)
      requires Valid() && items != []
      ensures last == spine[|items| - 1]
    {
      last := menu_first;
      ghost var i := 0;
      while last.next != null
        invariant 0 <= i < |spine| && last == spine[i]
        invariant last.next == if i < |spine| - 1 then spine[i + 1] else null
        decreases |spine| - i
      {
        last := last.next;
        i := i + 1;
      }
    }

    /** A new element behind the last one. */
    method Append(last: Node, e: Element) returns (node: Node)
      requires Valid() && items != [] && last == spine[|items| - 1]
      modifies this`spine, this`items, last`next
      ensures Valid() && fresh(node) && spine == old(spine) + [node]
      ensures items == old(items) + [e]
    {
      node := new Node(e);
      last.next := node;
      spine := spine + [node];
      items := items + [e];
    }

    /** A list of one new element. */
    method Begin(e: Element) returns (node: Node)
      modifies this`menu_first, this`spine, this`items
      ensures Valid() && fresh(node) && spine == [node] && items == [e]
    {
      node := new Node(e);
      menu_first := node;
      spine, items := [node], [e];
    }

    /**
     `ui_add_menu_ext`: the element goes to the end of the list and the count covers one more;
     the new number of elements.
     */
    method Add(e: Element) returns (count: nat)
      requires Valid()
      modifies this`menu_first, this`menu_items, this`spine, this`items, spine
      ensures Valid() && items == old(items) + [e]
      ensures count == menu_items == old(menu_items) + 1
      ensures forall k :: 0 <= k < |spine| ==> spine[k] in old(spine) || fresh(spine[k])
    {
      if menu_first != null {
        var last := Last();
        var node := Append(last, e);
      } else {
        var node := Begin(e);
      }
      menu_items := menu_items + 1;
      count := menu_items;
    }

    /** The header lines, joined into one text. */
    static method JoinHeaders(headers: seq<string>) returns (text: string)
      requires headers != []
      ensures text == HeaderText(headers)
    {
      text := headers[0];
      for i := 1 to |headers|
        invariant text == HeaderText(headers[..i])
      {
        assert headers[..i + 1][..i] == headers[..i];
        if |headers[i]| > 0 {
          text := text + "\n" + headers[i];
        }
      }
      assert headers[..|headers|] == headers;
    }

    /**
     `ui_start_menu`: one header made of all header lines, then the items.  The first element
     is allocated before either is looked at, so without both the list holds a blank element
     that the count does not cover.
     */
    method Start(headers: seq<string>, entries: seq<string>, backButton: bool) returns (count: int)
      modifies this
      ensures Valid() && menu_items <= |items| && Shown() == Heading(headers) + Entries(entries)
      ensures items == MenuList(headers, entries)
      ensures menu_sel == (if headers == [] then 0 else 1) && menu_pos == 0
      ensures count == menu_items - if backButton then 1 else 0
    {
      var top := if headers == [] then 0 else 1;
      BuildList(headers, entries);
      ghost var list := items;
      menu_items, menu_sel, menu_pos := top + |entries|, top, 0;
      assert Valid() && items == list;
      Covered(headers, entries, list);
      count := if backButton then menu_items - 1 else menu_items;
    }

    /** Lines 1193 to 1246. */
    method BuildList(headers: seq<string>, entries: seq<string>)
      modifies this`menu_first, this`spine, this`items
      ensures Valid()
      ensures items == MenuList(headers, entries)
    {
      var first := Begin(BLANK);
      if headers != [] {
        var text := JoinHeaders(headers);
        SetFirst(first, Element(-1, 0, GLOBAL_HEADER, text, None));
      }
      AddEntries(first, headers == [], entries);
    }

    /** The items behind the heading; the first of them in the first element, if that is still blank. */
    method AddEntries(first: Node, blank: bool, entries: seq<string>)
      requires Valid() && spine == [first]
      modifies this`spine, this`items, first
      ensures Valid()
      ensures items == if blank && entries != [] then Entries(entries)
                       else if entries != [] then old(items) + Entries(entries) else old(items)
    {
      ghost var heading := if blank then [] else items;
      var i := 0;
      if blank && entries != [] {
        SetFirst(first, Entry(0, entries[0]));
        i := 1;
        assert Entries(entries[..1]) == [Entry(0, entries[0])];
      }
      if entries != [] {
        AppendEntries(first, i, heading, entries);
      }
    }

    /** The items from i on. */
    method AppendEntries(first: Node, from: nat, ghost heading: seq<Element>, entries: seq<string>)
      requires Valid() && spine == [first] && from <= |entries|
      requires items == heading + Entries(entries[..from])
      modifies this`spine, this`items, first`next
      ensures Valid() && items == heading + Entries(entries)
    {
      var curr := first;
      for i := from to |entries|
        invariant Valid() && items != [] && curr == spine[|items| - 1]
        invariant forall k :: 0 <= k < |spine| ==> spine[k] == first || fresh(spine[k])
        invariant items == heading + Entries(entries[..i])
      {
        curr := Append(curr, Entry(i, entries[i]));
        EntriesSnoc(heading, entries, i);
      }
      assert entries[..|entries|] == entries;
    }

    /** Fills in the only element. */
    method SetFirst(first: Node, e: Element)
      requires Valid() && spine == [first]
      modifies this`items, first`element
      ensures Valid() && items == [e]
    {
      first.element := e;
      items := [e];
    }
  }

  /** Calls of `ui_add_menu_ext` after `ui_start_menu_ext` build exactly the elements given. */
  method Build(elements: seq<Element>) returns (menu: Selection)
    ensures fresh(menu) && menu.Valid() && menu.items == elements && menu.menu_items == |elements|
    ensures menu.Shown() == elements
  {
    menu := new Selection();
    menu.Clear();
    for i := 0 to |elements|
      invariant fresh(menu) && menu.Valid() && menu.items == elements[..i] && menu.menu_items == i
      invariant forall k :: 0 <= k < |menu.spine| ==> fresh(menu.spine[k])
    {
      var count := menu.Add(elements[i]);
      assert elements[..i + 1] == elements[..i] + [elements[i]];
    }
  }

  // ---------- what Start builds

  /** Later header lines are put on new lines, unless they are empty. */
  function HeaderText(headers: seq<string>): string
    requires headers != []
  {
    if |headers| == 1 then headers[0]
    else
      var last := headers[|headers| - 1];
      HeaderText(headers[..|headers| - 1]) + if last == "" then "" else "\n" + last
  }

  function Header(headers: seq<string>): Element
    requires headers != []
  {
    Element(-1, 0, GLOBAL_HEADER, HeaderText(headers), None)
  }

  function Heading(headers: seq<string>): seq<Element> {
    if headers == [] then [] else [Header(headers)]
  }

  /** Zeroed memory: its type is that of a global header. */
  const BLANK := Element(0, 0, GLOBAL_HEADER, "", None)

  /** The list: the heading and the items, or a blank element. */
  function MenuList(headers: seq<string>, entries: seq<string>): seq<Element> {
    if headers == [] && entries == [] then [BLANK] else Heading(headers) + Entries(entries)
  }

  /** What the count of `ui_start_menu` covers. */
  lemma Covered(headers: seq<string>, entries: seq<string>, list: seq<Element>)
    requires list == MenuList(headers, entries)
    ensures var n := (if headers == [] then 0 else 1) + |entries|;
      n <= |list| && list[..n] == Heading(headers) + Entries(entries)
  {
  }

  /** Position behind the last character 1, or 0: what follows is the help text. */
  function HelpStart(s: string): (n: nat)
    ensures n <= |s|
  {
    if s == "" then 0 else if s[|s| - 1] == '\U{0001}' then |s| else HelpStart(s[..|s| - 1])
  }

  function Entry(id: nat, s: string): Element {
    var n := HelpStart(s);
    if n == 0 then Element(id, 0, ELEMENT, s, None) else Element(id, 0, ELEMENT, s[..n], Some(s[n..]))
  }

  /** An item is only divided: its help text is what follows the last character 1. */
  lemma EntryDivides(id: nat, s: string)
    ensures var e := Entry(id, s);
      && e.text + (if e.help.Some? then e.help.value else "") == s
      && (e.help.Some? <==> '\U{0001}' in s)
      && (e.help.Some? ==> '\U{0001}' !in e.help.value)
  {
    HelpStartLast(s);
  }

  lemma {:induction false} HelpStartLast(s: string)
    ensures HelpStart(s) == 0 <==> '\U{0001}' !in s
    ensures forall k :: HelpStart(s) <= k < |s| ==> s[k] != '\U{0001}'
  {
    if s != "" && s[|s| - 1] != '\U{0001}' {
      HelpStartLast(s[..|s| - 1]);
      assert s == s[..|s| - 1] + [s[|s| - 1]];
    }
  }

  function Entries(entries: seq<string>): (r: seq<Element>)
    ensures |r| == |entries|
    ensures forall i :: 0 <= i < |r| ==> r[i] == Entry(i, entries[i])
  {
    if entries == [] then []
    else
      var k := |entries| - 1;
      Entries(entries[..k]) + [Entry(k, entries[k])]
  }

  lemma EntriesSnoc(heading: seq<Element>, entries: seq<string>, i: nat)
    requires i < |entries|
    ensures heading + Entries(entries[..i]) + [Entry(i, entries[i])] == heading + Entries(entries[..i + 1])
  {
    assert entries[..i + 1][..i] == entries[..i];
  }

  /** A menu with at least one item starts on its first item. */
  lemma StartSelectable(headers: seq<string>, entries: seq<string>)
    requires entries != []
    ensures var m := Heading(headers) + Entries(entries);
      var top := if headers == [] then 0 else 1;
      && AnySelectable(m)
      && (forall i :: 0 <= i < |m| ==> (Selectable(m[i]) <==> top <= i))
      && (forall i :: top <= i < |m| ==> m[i].id == i - top)
  {
    var m := Heading(headers) + Entries(entries);
    var top := if headers == [] then 0 else 1;
    var es := Entries(entries);
    assert |m| == top + |es| && |es| == |entries|;
    forall i | 0 <= i < |m| ensures Selectable(m[i]) <==> top <= i {
      if top <= i {
        assert m[i] == es[i - top] == Entry(i - top, entries[i - top]);
      }
    }
    assert Selectable(m[top]);
  }

  // ---------- walking

  /** One key press takes the selection from p to r. */
  ghost predicate Moves(m: seq<Element>, p: nat, down: bool, r: nat) {
    p < |m| && Nearest(m, Into(if down then p + 1 else p - 1, |m|), down, r)
  }

  /** UP undoes DOWN, and DOWN undoes UP. */
  lemma PressUndone(m: seq<Element>, p: nat, down: bool, r: nat)
    requires p < |m| && Selectable(m[p]) && Moves(m, p, down, r)
    ensures Moves(m, r, !down, p)
  {
    var n := |m|;
    var first := Into(if down then p + 1 else p - 1, n);
    var d: nat :| NearestAt(m, first, down, r, d);
    var back, up := Into(if down then r - 1 else r + 1, n), !down;
    forall e: nat | e < d ensures !Selectable(m[Along(back, e, n, up)]) {
      assert Along(back, e, n, up) == Along(first, d - 1 - e, n, down);
    }
    assert Along(back, d, n, up) == p;
    assert NearestAt(m, back, up, p, d);
  }

  /** The selectable positions, in order. */
  predicate AreChoices(m: seq<Element>, c: seq<nat>) {
    && (forall k, l :: 0 <= k < l < |c| ==> c[k] < c[l])
    && (forall k :: 0 <= k < |c| ==> c[k] < |m| && Selectable(m[c[k]]))
    && (forall q :: 0 <= q < |m| && Selectable(m[q]) ==> q in c)
  }

  /** Every menu has them. */
  function Choices(m: seq<Element>): (c: seq<nat>)
    ensures AreChoices(m, c)
  {
    if m == [] then []
    else
      var n := |m| - 1;
      var c := Choices(m[..n]);
      if Selectable(m[n]) then c + [n] else c
  }

  /** The choice after choice j; the first one after the last. */
  function After(j: nat, k: nat): nat {
    if j + 1 < k then j + 1 else 0
  }

  /** No choice lies strictly between a choice and the next one on the circle. */
  lemma NotBetween(c: seq<nat>, j: nat, k: nat, n: nat, d: nat, e: nat)
    requires j < |c| && k < |c| && forall a, b :: 0 <= a < b < |c| ==> c[a] < c[b]
    requires c[j] < n && c[k] < n && c[After(j, |c|)] < n
    requires e < d < n && Along(Into(c[j] + 1, n), d, n, true) == c[After(j, |c|)]
    ensures c[k] != Along(Into(c[j] + 1, n), e, n, true)
  {
    assert k < j ==> c[k] < c[j];
    assert j < k ==> c[j] < c[k];
    assert c[0] <= c[k];
    assert j + 1 < k ==> c[j + 1] < c[k];
  }

  /** DOWN from a choice leads to the next one, and from the last to the first. */
  lemma DownIsNext(m: seq<Element>, c: seq<nat>, j: nat, r: nat)
    requires AreChoices(m, c) && j < |c| && Moves(m, c[j], true, r)
    ensures r == c[After(j, |c|)]
  {
    var n, q := |m|, c[After(j, |c|)];
    var first := Into(c[j] + 1, n);
    var d := Reaches(first, q, n, true);
    forall e: nat | e < d ensures !Selectable(m[Along(first, e, n, true)]) {
      NotAChoice(m, c, j, d, e);
    }
    assert NearestAt(m, first, true, q, d);
    NearestUnique(m, first, true, r, q);
  }

  lemma NotAChoice(m: seq<Element>, c: seq<nat>, j: nat, d: nat, e: nat)
    requires AreChoices(m, c) && j < |c| && e < d < |m|
    requires Along(Into(c[j] + 1, |m|), d, |m|, true) == c[After(j, |c|)]
    ensures !Selectable(m[Along(Into(c[j] + 1, |m|), e, |m|, true)])
  {
    var x := Along(Into(c[j] + 1, |m|), e, |m|, true);
    if x in c {
      var k :| 0 <= k < |c| && c[k] == x;
      NotBetween(c, j, k, |m|, d, e);
    }
  }

  /** Positions selected by repeated DOWN. */
  ghost predicate Walk(m: seq<Element>, walk: seq<nat>) {
    && |walk| > 0 && walk[0] < |m| && Selectable(m[walk[0]])
    && forall i :: 0 <= i < |walk| - 1 ==> Moves(m, walk[i], true, walk[i + 1])
  }

  function Turn(j: nat, i: nat, k: nat): nat {
    if j + i < k then j + i else j + i - k
  }

  lemma {:induction false} WalkPosition(m: seq<Element>, c: seq<nat>, walk: seq<nat>, j: nat, i: nat)
    requires AreChoices(m, c) && Walk(m, walk) && j < |c| && walk[0] == c[j]
    requires i < |walk| && i <= |c|
    ensures walk[i] == c[Turn(j, i, |c|)]
  {
    if i > 0 {
      WalkPosition(m, c, walk, j, i - 1);
      assert Moves(m, walk[i - 1], true, walk[i - 1 + 1]);
      DownIsNext(m, c, Turn(j, i - 1, |c|), walk[i]);
    }
  }

  /** As many presses of DOWN as there are selectable elements visit them all and come back. */
  lemma FullCircle(m: seq<Element>, c: seq<nat>, walk: seq<nat>)
    requires AreChoices(m, c) && Walk(m, walk) && |walk| == |c| + 1
    ensures walk[|walk| - 1] == walk[0]
    ensures forall q :: 0 <= q < |m| && Selectable(m[q]) ==> q in walk
  {
    var j :| 0 <= j < |c| && c[j] == walk[0];
    WalkPosition(m, c, walk, j, |c|);
    forall q | 0 <= q < |m| && Selectable(m[q]) ensures q in walk {
      Visited(m, c, walk, j, q);
    }
  }

  lemma Visited(m: seq<Element>, c: seq<nat>, walk: seq<nat>, j: nat, q: nat)
    requires AreChoices(m, c) && Walk(m, walk) && |walk| == |c| + 1 && j < |c| && walk[0] == c[j]
    requires q < |m| && Selectable(m[q])
    ensures q in walk
  {
    var l :| 0 <= l < |c| && c[l] == q;
    var i := if l >= j then l - j else l + |c| - j;
    WalkPosition(m, c, walk, j, i);
    assert walk[i] == q;
  }

  lemma SomeDistance(m: seq<Element>, p: nat, down: bool) returns (d: nat)
    requires AnySelectable(m) && p < |m|
    ensures d < |m| && Selectable(m[Along(p, d, |m|, down)])
  {
    var i :| 0 <= i < |m| && Selectable(m[i]);
    d := Reaches(p, i, |m|, down);
  }

  // ---------- the header

  function NonEmpty(lines: seq<string>): seq<string> {
    if lines == [] then []
    else
      var last := lines[|lines| - 1];
      NonEmpty(lines[..|lines| - 1]) + if last == "" then [] else [last]
  }

  /** One more header line. */
  lemma HeaderLine(text: string, lines: seq<string>, last: string)
    requires TextLog.Split(text) == lines && '\n' !in last
    ensures TextLog.Split(text + if last == "" then "" else "\n" + last) == lines + if last == "" then [] else [last]
  {
    if last == "" {
      assert text + "" == text && lines + [] == lines;
    } else {
      TextLog.SplitAppend(text, last);
      assert text + "\n" + last == text + ("\n" + last);
    }
  }

  lemma NonEmptySnoc(headers: seq<string>)
    requires |headers| > 1
    ensures var init, last := headers[..|headers| - 1], headers[|headers| - 1];
      [headers[0]] + NonEmpty(headers[1..]) ==
        [init[0]] + NonEmpty(init[1..]) + if last == "" then [] else [last]
  {
    var n := |headers| - 1;
    assert headers[1..][..n - 1] == headers[..n][1..] && headers[1..][n - 1] == headers[n];
  }

  /** The lines of the header are the first header line and those of the others that are not empty. */
  lemma {:induction false} HeaderLines(headers: seq<string>)
    requires headers != [] && forall i :: 0 <= i < |headers| ==> '\n' !in headers[i]
    ensures TextLog.Split(HeaderText(headers)) == [headers[0]] + NonEmpty(headers[1..])
  {
    var n := |headers| - 1;
    if n == 0 {
      OneLine(headers[0]);
    } else {
      var init := headers[..n];
      HeaderLines(init);
      HeaderLine(HeaderText(init), [init[0]] + NonEmpty(init[1..]), headers[n]);
      NonEmptySnoc(headers);
    }
  }

  lemma {:induction false} OneLine(s: string)
    requires '\n' !in s
    ensures TextLog.Split(s) == [s]
  {
    if s != "" {
      OneLine(s[..|s| - 1]);
      assert s[..|s| - 1] + [s[|s| - 1]] == s;
    }
  }
}

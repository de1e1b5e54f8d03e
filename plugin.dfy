/**
 * The plugin object (`HiddenTextToggle`): the display mode, the shared pattern, whether the
 * editor modules could be loaded, the walk over rendered previews and the mode toggle.
 */
module Plugin {
  import opened Wrappers
  import opened JsText
  import opened Scanner
  import opened Splitter
  import opened Dom

  class HiddenTextToggle {
    /** Whether spans are shown masked. */
    var hiddenMode: bool
    /** The pattern the walk shares between its `test` and the splitter's `exec` loop. */
    const pattern: GlobalRegex
    /** Whether the editor modules were found when the plugin loaded. */
    var cmAvailable: bool
    /** The mode the editor extension is configured with, or None while no extension was
        registered (no compartment exists). */
    var editorMode: Option<bool>

    /** Between operations the pattern is at the start of its input, an editor extension is
        registered exactly when the editor modules are available, and it shows the current
        mode. */
    ghost predicate Valid()
      reads this, pattern
    {
      && pattern.lastIndex == 0
      && (editorMode.Some? <==> cmAvailable)
      && (editorMode.Some? ==> editorMode.value == hiddenMode)
    }

    constructor ()
      ensures Valid() && fresh(pattern)
      ensures hiddenMode && !cmAvailable && editorMode == None
    {
      hiddenMode := true;
      pattern := new GlobalRegex();
      cmAvailable := false;
      editorMode := None;
    }

    /** `onload`, reduced to its effect on the plugin's state: `cmLoaded` is what loading the
        editor modules reported; when they are there, an extension for the current mode is
        registered in a fresh compartment. */
    method OnLoad(cmLoaded: bool)
      requires pattern.lastIndex == 0
      modifies this
      ensures Valid()
      ensures cmAvailable == cmLoaded && hiddenMode == old(hiddenMode)
      ensures editorMode == (if cmLoaded then Some(hiddenMode) else None)
    {
      cmAvailable := cmLoaded;
      if cmAvailable {
        editorMode := Some(hiddenMode);
      } else {
        editorMode := None;
      }
    }

    /** `traverse`: what takes the place of `node` once it is walked. A text node is tested
        with the pattern and, when it holds a span, split; an element outside the ignored tags
        has its children walked one index at a time, over the live child list. After a split
        the loop steps past the first inserted node, so the nodes inserted after it are
        visited too; they are already settled. */
    method Traverse(node: Node) returns (r: seq<Node>)
      requires pattern.lastIndex == 0
      modifies pattern
      ensures r == Process(node)
      ensures pattern.lastIndex == 0
      decreases Size(node)
    {
      match node
      case Text(s) =>
        var found := pattern.Test(s);
        if !found {
          return [node];
        }
        pattern.lastIndex := 0;
        var segs := SplitText(s, pattern);
        r := Fragment(segs);
      case Other =>
        r := [node];
      case Element(tag, cls, ch) =>
        if tag in IgnoredTags {
          return [node];
        }
        ChildrenSmaller(node);
        var kids := ch;
        var i := 0;
        while i < |kids|
          invariant i <= |kids|
          invariant kids[..i] + ProcessAll(kids[i..]) == ProcessAll(ch)
          invariant forall j :: i <= j < |kids| ==> Size(kids[j]) < Size(node)
          invariant pattern.lastIndex == 0
          decreases |ProcessAll(kids[i..])|
        {
          var piece := Traverse(kids[i]);
          ghost var old_kids := kids;
          kids := kids[..i] + piece + kids[i + 1..];
          Revisit(old_kids, i, kids);
          RevisitSizes(old_kids, i, kids, Size(node));
          i := i + 1;
        }
        assert kids[i..] == [];
        assert kids == ProcessAll(ch);
        r := [Element(tag, cls, kids)];
    }

    /** `processElement`: walk a rendered tree from its root. */
    method ProcessElement(root: Node) returns (r: seq<Node>)
      requires pattern.lastIndex == 0
      modifies pattern
      ensures r == Process(root)
      ensures pattern.lastIndex == 0
    {
      r := Traverse(root);
    }

    /** The preview post-processor: nothing happens unless spans are hidden. */
    method PostProcess(el: Node) returns (r: seq<Node>)
      requires Valid()
      modifies pattern
      ensures Valid()
      ensures r == (if hiddenMode then Process(el) else [el])
    {
      if !hiddenMode {
        return [el];
      }
      r := ProcessElement(el);
    }

    /** `reconfigureEditors`: when the editor modules are there and a compartment exists, the
        editor extension is replaced by one for the current mode. */
    method ReconfigureEditors()
      modifies this
      ensures hiddenMode == old(hiddenMode) && cmAvailable == old(cmAvailable)
      ensures editorMode == (if cmAvailable && old(editorMode).Some? then Some(hiddenMode) else old(editorMode))
    {
      if !cmAvailable || editorMode.None? {
        return;
      }
      editorMode := Some(hiddenMode);
    }

    /** `toggleHiddenMode`: flip the mode and bring the editors along. */
    method ToggleHiddenMode()
      requires Valid()
      modifies this
      ensures Valid()
      ensures hiddenMode == !old(hiddenMode) && cmAvailable == old(cmAvailable)
    {
      hiddenMode := !hiddenMode;
      ReconfigureEditors();
    }

    /** Toggling twice restores the mode and the editors' configuration. */
    method ToggleTwice()
      requires Valid()
      modifies this
      ensures Valid()
      ensures hiddenMode == old(hiddenMode) && editorMode == old(editorMode)
    {
      ToggleHiddenMode();
      ToggleHiddenMode();
    }
  }

  /** The children of an element are each smaller than the element. */
  lemma ChildrenSmaller(node: Node)
    requires node.Element?
    ensures forall j :: 0 <= j < |node.children| ==> Size(node.children[j]) < Size(node)
  {
    forall j | 0 <= j < |node.children|
      ensures Size(node.children[j]) < Size(node)
    {
      ChildSize(node.children, j);
    }
  }

  // `Splice` and `Regroup` are plain sequence identities, stated once so that `Revisit` can
  // use them on opaque terms; they say nothing about the walk and keep the solver's work small.

  /** Putting p in place of the i-th element of kids: what is now before and after the
      first piece. */
  lemma Splice(kids: seq<Node>, i: nat, p: seq<Node>, next: seq<Node>)
    requires i < |kids| && p != []
    requires next == kids[..i] + p + kids[i + 1..]
    ensures next[..i + 1] == kids[..i] + [p[0]]
    ensures next[i + 1..] == p[1..] + kids[i + 1..]
  {
  }

  /** What the walk makes of the children from the i-th on: the i-th one's pieces, then
      what it makes of the rest. */
  lemma ProcessFrom(kids: seq<Node>, i: nat)
    requires i < |kids|
    ensures ProcessAll(kids[i..]) == Process(kids[i]) + ProcessAll(kids[i + 1..])
  {
    assert kids[i..][0] == kids[i] && kids[i..][1..] == kids[i + 1..];
  }

  /** Settled pieces followed by the rest of the children: walking them is walking the rest,
      and leaves less to do than walking all the pieces and the rest. */
  lemma Recombine(pre: seq<Node>, p: seq<Node>, rest: seq<Node>)
    requires p != []
    requires ProcessAll(p[1..]) == p[1..]
    ensures (pre + [p[0]]) + ProcessAll(p[1..] + rest) == pre + (p + ProcessAll(rest))
    ensures |ProcessAll(p[1..] + rest)| < |p + ProcessAll(rest)|
  {
    ProcessAllAppend(p[1..], rest);
    Regroup(pre, p, ProcessAll(rest));
  }

  lemma Regroup(pre: seq<Node>, p: seq<Node>, q: seq<Node>)
    requires p != []
    ensures (pre + [p[0]]) + (p[1..] + q) == pre + (p + q)
  {
    assert p == [p[0]] + p[1..];
  }

  /** One step of the walk over the live child list: the i-th child is replaced by what it
      turns into; the pieces after the first, now the next children, are already settled,
      so the total outcome stays the same and what is left to do shrinks. */
  lemma Revisit(kids: seq<Node>, i: nat, next: seq<Node>)
    requires i < |kids|
    requires next == kids[..i] + Process(kids[i]) + kids[i + 1..]
    ensures next[..i + 1] + ProcessAll(next[i + 1..]) == kids[..i] + ProcessAll(kids[i..])
    ensures |ProcessAll(next[i + 1..])| < |ProcessAll(kids[i..])|
  {
    var p := Process(kids[i]);
    ProcessNotEmpty(kids[i]);
    ProcessSettled(kids[i]);
    SettledTail(p);
    Splice(kids, i, p, next);
    ProcessFrom(kids, i);
    Recombine(kids[..i], p, kids[i + 1..]);
  }

  /** After that step, the children still to visit are the pieces of the split, none bigger
      than the child they replace, then the children that followed it. */
  lemma RevisitSizes(kids: seq<Node>, i: nat, next: seq<Node>, bound: nat)
    requires i < |kids|
    requires next == kids[..i] + Process(kids[i]) + kids[i + 1..]
    requires forall j :: i <= j < |kids| ==> Size(kids[j]) < bound
    ensures forall j :: i + 1 <= j < |next| ==> Size(next[j]) < bound
  {
    var p := Process(kids[i]);
    ProcessSmall(kids[i]);
    forall j | i + 1 <= j < |next|
      ensures Size(next[j]) < bound
    {
      SpliceAt(kids, i, p, next, j);
      if j < i + |p| {
        assert Size(p[j - i]) <= Size(kids[i]);
      }
    }
  }

  /** Where the j-th node after the splice came from: a piece, or a later child. */
  lemma SpliceAt(kids: seq<Node>, i: nat, p: seq<Node>, next: seq<Node>, j: nat)
    requires i < |kids|
    requires next == kids[..i] + p + kids[i + 1..]
    requires i <= j < |next|
    ensures j < i + |p| ==> next[j] == p[j - i]
    ensures j >= i + |p| ==> next[j] == kids[j - |p| + 1]
  {
  }

  lemma SettledTail(p: seq<Node>)
    requires p != []
    requires forall k :: 0 <= k < |p| ==> Quiet(p[k])
    ensures ProcessAll(p[1..]) == p[1..]
  {
    assert forall k :: 0 <= k < |p[1..]| ==> p[1..][k] == p[k + 1];
    QuietAllFixed(p[1..]);
  }

}

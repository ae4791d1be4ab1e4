/** `Drupal.utilities.getSelector`: the selector string for an element. At each
    element of the walk up the tree it masks the ignored id and class, builds
    one fragment, restores what it masked, and then either stops (a surviving
    id) or prefixes the parent's selector and ` > `. */
module Selectors {
  import opened Strings
  import opened Filters
  import opened Dom

  // --------------------------------------------------------------- nthChild

  /** The lower-cased names of the nodes of `kids` that are not text, up to and
      including the first occurrence of `target`; None when `target` is not
      there (a target whose own name is `#text` is skipped, so never found). */
  function Collect(kids: seq<Node>, target: Node): (r: Option<seq<string>>)
    ensures r.Some? <==> Lower(target.nodeName) != "#text" && target in kids
    ensures r.Some? ==> |r.value| >= 1 && r.value[|r.value| - 1] == Lower(target.nodeName)
    ensures r.Some? ==> forall k :: 0 <= k < |r.value| ==> r.value[k] != "#text"
  {
    if kids == [] then None
    else
      var name := Lower(kids[0].nodeName);
      if name == "#text" then Collect(kids[1..], target)
      else if kids[0] == target then Some([name])
      else
        match Collect(kids[1..], target)
        case None => None
        case Some(rest) => Some([name] + rest)
  }

  /** The lower-cased names of the nodes of `kids` that are not text. */
  function ElementNames(kids: seq<Node>): seq<string>
  {
    if kids == [] then []
    else if Lower(kids[0].nodeName) == "#text" then ElementNames(kids[1..])
    else [Lower(kids[0].nodeName)] + ElementNames(kids[1..])
  }

  /** The names `nthChild` collects are exactly the non-text siblings from the
      first child up to the target's first position. */
  lemma {:induction false} CollectIsPrefixNames(kids: seq<Node>, target: Node, i: nat)
    requires i < |kids| && kids[i] == target && target !in kids[..i]
    requires Lower(target.nodeName) != "#text"
    ensures Collect(kids, target) == Some(ElementNames(kids[..i + 1]))
  {
    var upTo := kids[..i + 1];
    assert upTo[0] == kids[0];
    if i == 0 {
      assert upTo[1..] == [];
      assert ElementNames(upTo) == [Lower(target.nodeName)] + ElementNames(upTo[1..]);
      assert ElementNames(upTo) == [Lower(target.nodeName)];
      assert Collect(kids, target) == Some([Lower(target.nodeName)]);
    } else {
      assert kids[0] in kids[..i];
      assert kids[1..][..i - 1] == kids[1..i];
      assert forall x :: x in kids[1..i] ==> x in kids[..i];
      CollectIsPrefixNames(kids[1..], target, i - 1);
      assert upTo[1..] == kids[1..][..i];
    }
  }

  /** `p:first-child + p + p`: the collected names joined with the
      adjacent-sibling combinator, the first one marked `:first-child` when
      there is more than one. */
  function PositionalChain(names: seq<string>): string
    requires |names| >= 1
  {
    Join(if |names| > 1 then names[0 := names[0] + ":first-child"] else names, " + ")
  }

  /** The fragment `nthChild` computes for a node. */
  function NthChildOf(e: Node?): string
    reads (if e != null && e.parent != null then {e.parent} else {})`childNodes
  {
    if e == null || e.kind == Document || e.kind == Body || e.kind == Head then ""
    else if e.parent != null then
      match Collect(e.parent.childNodes, e)
      case Some(names) => PositionalChain(names)
      case None => Lower(e.nodeName)
    else Lower(e.nodeName)
  }

  function Extend(prefix: seq<string>, names: Option<seq<string>>): Option<seq<string>>
  {
    match names
    case None => None
    case Some(rest) => Some(prefix + rest)
  }

  lemma ExtendNothing(names: Option<seq<string>>)
    ensures Extend([], names) == names
  {
    if names.Some? {
      assert [] + names.value == names.value;
    }
  }

  lemma ExtendTwice(prefix: seq<string>, more: seq<string>, names: Option<seq<string>>)
    ensures Extend(prefix, Extend(more, names)) == Extend(prefix + more, names)
  {
    if names.Some? {
      assert prefix + (more + names.value) == (prefix + more) + names.value;
    }
  }

  /** One step of `Collect` over the siblings from position `i`. */
  lemma CollectStep(kids: seq<Node>, i: nat, target: Node)
    requires i < |kids|
    ensures var name := Lower(kids[i].nodeName);
      Collect(kids[i..], target) ==
        if name == "#text" then Collect(kids[i + 1..], target)
        else if kids[i] == target then Some([name])
        else Extend([name], Collect(kids[i + 1..], target))
  {
    assert kids[i..][0] == kids[i] && kids[i..][1..] == kids[i + 1..];
  }

  /** `nthChild(element)`. */
  method NthChild(e: Node?) returns (selector: string)
    ensures selector == NthChildOf(e)
  {
    if e == null || e.kind == Document || e.kind == Body || e.kind == Head {
      return "";
    }
    var parent := e.parent;
    if parent != null {
      var kids := parent.childNodes;
      var nthStack: seq<string> := [];
      var num := |kids|;
      ExtendNothing(Collect(kids, e));
      assert kids[0..] == kids;
      for i := 0 to num
        invariant Collect(kids, e) == Extend(nthStack, Collect(kids[i..], e))
      {
        CollectStep(kids, i, e);
        var nthName := Lower(kids[i].nodeName);
        if nthName == "#text" {
          continue;
        }
        ExtendTwice(nthStack, [nthName], Collect(kids[i + 1..], e));
        nthStack := nthStack + [nthName];
        if kids[i] == e {
          if |nthStack| > 1 {
            nthStack := nthStack[0 := nthStack[0] + ":first-child"];
          }
          return Join(nthStack, " + ");
        }
      }
      assert kids[num..] == [];
    }
    return Lower(e.nodeName);
  }

  /** `nthChild` gives "" for the document, its body and its head; for any
      other element the fragment ends with the element's own lower-cased name,
      and is just that name when the element has no parent or is not among
      its parent's children. */
  lemma NthChildShape(e: Node)
    ensures e.kind == Document || e.kind == Body || e.kind == Head ==> NthChildOf(e) == ""
    ensures IsElement(e.kind) && e.kind != Body && e.kind != Head ==>
      |Lower(e.nodeName)| <= |NthChildOf(e)| &&
      NthChildOf(e)[|NthChildOf(e)| - |Lower(e.nodeName)|..] == Lower(e.nodeName)
    ensures IsElement(e.kind) && e.kind != Body && e.kind != Head && (e.parent == null || e !in e.parent.childNodes) ==>
      NthChildOf(e) == Lower(e.nodeName)
  {
    if IsElement(e.kind) && e.kind != Body && e.kind != Head && e.parent != null {
      match Collect(e.parent.childNodes, e)
      case Some(names) => ChainEndsWithLast(names);
      case None =>
    }
  }

  /** The positional chain ends with the last collected name. */
  lemma ChainEndsWithLast(names: seq<string>)
    requires |names| >= 1
    ensures |names[|names| - 1]| <= |PositionalChain(names)|
    ensures PositionalChain(names)[|PositionalChain(names)| - |names[|names| - 1]|..] == names[|names| - 1]
  {
    var marked := if |names| > 1 then names[0 := names[0] + ":first-child"] else names;
    assert marked[|marked| - 1] == names[|names| - 1];
    JoinEndsWithLast(marked, " + ");
  }

  // -------------------------------------------------- masking and restoring

  /** The loop of lines 103-108: `(t1)|(t2)|…` from the split filter. */
  method BuildAlternation(temp: seq<string>) returns (source: string)
    ensures source == AlternationSource(temp)
  {
    ghost var groups := Groups(temp);
    source := "";
    for i := 0 to |temp|
      invariant source == if i == 0 then "" else Join(groups[..i], "|") + (if i < |temp| then "|" else "")
    {
      source := source + "(" + temp[i] + ")";
      if i < |temp| - 1 {
        source := source + "|";
      }
      if i > 0 {
        JoinSnoc(groups[..i], groups[i], "|");
        assert groups[..i] + [groups[i]] == groups[..i + 1];
      }
    }
    assert groups[..|temp|] == groups;
  }

  /** `removeIgnoreAttributes(element, ignoreId, ignoreClasses)`: clears an
      ignored id, takes away the class the class filter hits, and returns what
      it removed. */
  method RemoveIgnoreAttributes(e: Node, ignoreId: string, ignoreClasses: string) returns (tempId: string, tempClasses: string)
    modifies e`id, e`classes
    ensures tempId == RemovedId(old(e.id), ignoreId)
    ensures e.id == MaskedId(old(e.id), ignoreId)
    ensures tempClasses == ClassMatchText(old(e.classes), ignoreClasses)
    ensures e.classes == MaskedClasses(old(e.classes), ignoreClasses)
  {
    tempId := "";
    // A non-empty string becomes `^ignoreId$`, matched case-sensitively.
    var idPattern: Option<string> := None;
    if NotEmpty(Some(ignoreId)) {
      idPattern := Some(ignoreId);
    }
    var classPattern: Option<seq<string>> := None;
    if NotEmpty(Some(ignoreClasses)) {
      var temp := Split(ignoreClasses, ' ');
      var source := BuildAlternation(temp);
      // `new RegExp(source)`: its alternatives are the tokens of `temp`, see
      // AlternationRoundTrip.
      classPattern := Some(temp);
    }
    if idPattern.Some? && NotEmpty(Some(e.id)) && e.id == idPattern.value {
      tempId := e.id;
      e.id := "";
    }
    var matches: Option<seq<string>> := None;
    if classPattern.Some? {
      var m := LeftmostFrom(ClassName(e.classes), classPattern.value, 0);
      if m.Some? {
        matches := Some(MatchArray(|classPattern.value|, m.value));
      }
    }
    // The `-processed` term appended to tempClasses always evaluates to "".
    tempClasses := if matches.Some? then Join(matches.value, " ") else "";
    e.classes := RemoveClass(e.classes, tempClasses);
  }

  /** `restoreIgnoredAttributes(element, restoreId, restoreClasses)`. */
  method RestoreIgnoredAttributes(e: Node, restoreId: string, restoreClasses: string)
    modifies e`id, e`classes
    ensures e.id == RestoreId(old(e.id), restoreId)
    ensures e.classes == AddClass(old(e.classes), restoreClasses)
  {
    if |restoreId| > 0 {
      e.id := restoreId;
    }
    e.classes := AddClass(e.classes, restoreClasses);
  }

  // ------------------------------------------------------------ getSelector

  /** `element.parentNode === element.ownerDocument`: the document element
      (the walk never visits the document itself). */
  predicate IsRoot(e: Node)
  {
    e.parent != null && e.parent.kind == Document
  }

  /** The fragment of one element, from its masked id and classes. */
  function Fragment(e: Node, id: string, classes: seq<string>): string
    reads (if e.parent != null then {e.parent} else {})`childNodes
  {
    if !IsRoot(e) && IsElement(e.kind) then
      if NotEmpty(Some(id)) then "#" + id
      else if NotEmpty(Some(ClassName(classes))) then "." + DropTrailingDot(Join(Split(ClassName(classes), ' '), "."))
      else NthChildOf(e)
    else ""
  }

  /** The walk from `e` stops at an element that keeps its id or has no parent
      before it reaches the document (whose missing class name the code would
      call `match` on), and it starts at an element. */
  ghost predicate WalkEnds(e: Node, ignoreId: string)
    requires e.Linked()
    reads e.Ancestors()
    decreases e.depth
  {
    IsElement(e.kind) &&
    (NotEmpty(Some(MaskedId(e.id, ignoreId))) || e.parent == null || WalkEnds(e.parent, ignoreId))
  }

  /** The elements the walk from `e` visits. */
  ghost function Walk(e: Node, ignoreId: string): (r: set<Node>)
    requires e.Linked()
    reads e.Ancestors()
    decreases e.depth
    ensures e in r && r <= e.Ancestors()
  {
    {e} + (if !NotEmpty(Some(MaskedId(e.id, ignoreId))) && e.parent != null then Walk(e.parent, ignoreId) else {})
  }

  /** The selector `getSelector` returns, on the tree as it is on entry. */
  function Selector(e: Node, ignoreId: string, ignoreClasses: string): string
    requires e.Linked() && WalkEnds(e, ignoreId)
    reads e.Ancestors()
    decreases e.depth
  {
    var id := MaskedId(e.id, ignoreId);
    var fragment := Fragment(e, id, MaskedClasses(e.classes, ignoreClasses));
    if NotEmpty(Some(id)) then fragment
    else if e.parent != null then Selector(e.parent, ignoreId, ignoreClasses) + " > " + fragment
    else fragment
  }

  /** One step of `getSelector`: mask `e`, build its fragment, restore it.
      Reports whether an id survived masking, which ends the walk. */
  method MaskedFragment(e: Node, ignoreId: string, ignoreClasses: string) returns (fragment: string, hasId: bool)
    requires e.Linked()
    modifies e`id, e`classes
    ensures hasId == NotEmpty(Some(MaskedId(old(e.id), ignoreId)))
    ensures fragment == old(Fragment(e, MaskedId(e.id, ignoreId), MaskedClasses(e.classes, ignoreClasses)))
    ensures e.id == old(e.id) && e.classes == RestoredClasses(old(e.classes), ignoreClasses)
  {
    var removedId, removedClasses := RemoveIgnoreAttributes(e, ignoreId, ignoreClasses);
    hasId := NotEmpty(Some(e.id));
    var hasClass := NotEmpty(Some(ClassName(e.classes)));
    var isElement := IsElement(e.kind);
    var isRoot := IsRoot(e);
    fragment := "";
    if !isRoot && isElement {
      if hasId {
        fragment := "#" + e.id;
      } else if hasClass {
        fragment := "." + DropTrailingDot(Join(Split(ClassName(e.classes), ' '), "."));
      } else {
        fragment := NthChild(e);
      }
    }
    assert fragment == Fragment(e, e.id, e.classes);
    RestoreIgnoredAttributes(e, removedId, removedClasses);
    IdMaskRoundTrip(old(e.id), ignoreId);
  }

  /** `getSelector(element, ignoreId, ignoreClasses)`. Each visited element is
      masked, its fragment built, and restored before the walk moves to the
      parent, so the result is the selector of the tree as it was on entry;
      afterwards every visited element has its id back and its classes as
      restoring leaves them. */
  method GetSelector(e: Node, ignoreId: string, ignoreClasses: string) returns (selector: string)
    requires e.Linked() && WalkEnds(e, ignoreId)
    modifies Walk(e, ignoreId)`id, Walk(e, ignoreId)`classes
    decreases e.depth
    ensures selector == old(Selector(e, ignoreId, ignoreClasses))
    ensures forall a :: old(allocated(a)) && a in old(Walk(e, ignoreId)) ==>
      a.id == old(a.id) && a.classes == RestoredClasses(old(a.classes), ignoreClasses)
  {
    AncestorsAllocated(e);
    var fragment, hasId := MaskedFragment(e, ignoreId, ignoreClasses);
    if hasId {
      selector := fragment;
    } else if e.parent != null {
      assert forall o :: o in e.parent.Ancestors() ==> o != e;
      assert Walk(e.parent, ignoreId) == old(Walk(e.parent, ignoreId));
      var above := GetSelector(e.parent, ignoreId, ignoreClasses);
      selector := above + " > " + fragment;
    } else {
      selector := fragment;
    }
  }

  /** Restoring the ids of the visited elements leaves the walk as it was:
      the same elements are visited and the walk still ends. */
  twostate lemma RestoredWalk(e: Node, new ignoreId: string)
    requires e.Linked() && old(WalkEnds(e, ignoreId))
    requires forall a :: old(allocated(a)) && a in old(Walk(e, ignoreId)) ==> a.id == old(a.id)
    decreases e.depth
    ensures WalkEnds(e, ignoreId) && Walk(e, ignoreId) == old(Walk(e, ignoreId))
  {
    if !NotEmpty(Some(MaskedId(e.id, ignoreId))) && e.parent != null {
      RestoredWalk(e.parent, ignoreId);
    }
  }

  /** With no class filter or a single-token one, the tree `getSelector`
      leaves behind gives the same selector as the tree it started from. */
  twostate lemma RestoredSelector(e: Node, new ignoreId: string, new ignoreClasses: string)
    requires e.Linked() && old(WalkEnds(e, ignoreId)) && ' ' !in ignoreClasses
    requires forall a :: old(allocated(a)) && a in old(Walk(e, ignoreId)) ==>
      a.id == old(a.id) && a.classes == RestoredClasses(old(a.classes), ignoreClasses)
    requires forall a :: old(allocated(a)) && a in e.Ancestors() ==> a.childNodes == old(a.childNodes)
    decreases e.depth
    ensures WalkEnds(e, ignoreId)
    ensures Selector(e, ignoreId, ignoreClasses) == old(Selector(e, ignoreId, ignoreClasses))
  {
    RestoredWalk(e, ignoreId);
    SingleTokenMaskStable(old(e.classes), ignoreClasses);
    if !NotEmpty(Some(MaskedId(e.id, ignoreId))) && e.parent != null {
      RestoredSelector(e.parent, ignoreId, ignoreClasses);
    }
  }

  /** Two calls of `getSelector` in a row. The first gives the selector of
      the tree on entry; the second gives the same one when there is no class
      filter or a single-token one. With two or more tokens it can differ,
      because restoring reorders the classes. */
  method SelectorTwice(e: Node, ignoreId: string, ignoreClasses: string) returns (first: string, second: string)
    requires e.Linked() && WalkEnds(e, ignoreId)
    modifies Walk(e, ignoreId)`id, Walk(e, ignoreId)`classes
    ensures first == old(Selector(e, ignoreId, ignoreClasses))
    ensures ' ' !in ignoreClasses ==> second == first
  {
    AncestorsAllocated(e);
    first := GetSelector(e, ignoreId, ignoreClasses);
    RestoredWalk(e, ignoreId);
    if ' ' !in ignoreClasses {
      RestoredSelector(e, ignoreId, ignoreClasses);
    }
    second := GetSelector(e, ignoreId, ignoreClasses);
  }

  // ----------------------------------------------------------------- lemmas

  /** The fragment of each visited element, from the element where the walk
      stops down to `e`. */
  ghost function Fragments(e: Node, ignoreId: string, ignoreClasses: string): (r: seq<string>)
    requires e.Linked() && WalkEnds(e, ignoreId)
    reads e.Ancestors()
    decreases e.depth
    ensures |r| >= 1
  {
    var id := MaskedId(e.id, ignoreId);
    var fragment := Fragment(e, id, MaskedClasses(e.classes, ignoreClasses));
    if !NotEmpty(Some(id)) && e.parent != null then Fragments(e.parent, ignoreId, ignoreClasses) + [fragment]
    else [fragment]
  }

  /** The selector is the visited elements' fragments, outermost first, joined
      with the child combinator ` > `. */
  lemma {:induction false} SelectorJoinsFragments(e: Node, ignoreId: string, ignoreClasses: string)
    requires e.Linked() && WalkEnds(e, ignoreId)
    decreases e.depth
    ensures Selector(e, ignoreId, ignoreClasses) == Join(Fragments(e, ignoreId, ignoreClasses), " > ")
  {
    var id := MaskedId(e.id, ignoreId);
    if !NotEmpty(Some(id)) && e.parent != null {
      SelectorJoinsFragments(e.parent, ignoreId, ignoreClasses);
      JoinSnoc(Fragments(e.parent, ignoreId, ignoreClasses), Fragment(e, id, MaskedClasses(e.classes, ignoreClasses)), " > ");
    }
  }

  /** An id that survives masking ends the walk: the selector is `#id` alone and
      no ancestor is visited. */
  lemma KeptIdIsWholeSelector(e: Node, ignoreId: string, ignoreClasses: string)
    requires e.Linked() && IsElement(e.kind) && !IsRoot(e)
    requires e.id != "" && e.id != ignoreId
    ensures WalkEnds(e, ignoreId)
    ensures Selector(e, ignoreId, ignoreClasses) == "#" + e.id
    ensures Walk(e, ignoreId) == {e}
  {
  }

  /** An ignored id does not end the walk: the element contributes a class or
      positional fragment and the parent's selector comes first. */
  lemma IgnoredIdWalksOn(e: Node, ignoreId: string, ignoreClasses: string)
    requires e.Linked() && WalkEnds(e, ignoreId)
    requires ignoreId != "" && e.id == ignoreId && e.parent != null
    ensures Selector(e, ignoreId, ignoreClasses) ==
      Selector(e.parent, ignoreId, ignoreClasses) + " > " + Fragment(e, "", MaskedClasses(e.classes, ignoreClasses))
    ensures Walk(e, ignoreId) == {e} + Walk(e.parent, ignoreId)
  {
  }

  /** With no surviving id, surviving classes (non-empty tokens without spaces)
      give `.` and the classes joined with `.`, one trailing dot dropped. */
  lemma ClassFragment(e: Node, classes: seq<string>)
    requires !IsRoot(e) && IsElement(e.kind)
    requires |classes| >= 1
    requires forall k :: 0 <= k < |classes| ==> classes[k] != "" && ' ' !in classes[k]
    ensures Fragment(e, "", classes) == "." + DropTrailingDot(Join(classes, "."))
  {
    SplitJoin(classes, ' ');
    JoinEndsWithLast(classes, " ");
  }

  /** Without a class filter every class shows in the fragment, `-processed`
      ones included. */
  lemma NoClassFilterShowsEveryClass(e: Node, ignoreId: string)
    requires !IsRoot(e) && IsElement(e.kind) && MaskedId(e.id, ignoreId) == ""
    requires |e.classes| >= 1
    requires forall k :: 0 <= k < |e.classes| ==> e.classes[k] != "" && ' ' !in e.classes[k]
    ensures Fragment(e, MaskedId(e.id, ignoreId), MaskedClasses(e.classes, "")) == "." + DropTrailingDot(Join(e.classes, "."))
  {
    NoClassFilterKeepsClasses(e.classes);
    ClassFragment(e, e.classes);
  }
}

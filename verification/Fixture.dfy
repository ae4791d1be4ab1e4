/** The "selector basics" QUnit case, on the page it runs against: `div#page`
    holding three `p` elements separated by text nodes, the first
    `p.ignoreme.myclass`, the second bare, the third `p#ignoremyid`. */
module Fixture {
  import opened Strings
  import opened Filters
  import opened Dom
  import opened Selectors

  /** The page in its authored state. */
  ghost predicate Page(page: Node, p1: Node, p3: Node)
    reads page, p1, p3
  {
    page.Linked() && p1.Linked() && p3.Linked()
    && page.kind == Element && page.id == "page" && page.parent != null && page.parent.kind == Body
    && p1.parent == page && p1.kind == Element && p1.id == "" && p1.classes == ["ignoreme", "myclass"]
    && p3.parent == page && p3.kind == Element && p3.nodeName == "P" && p3.id == "ignoremyid" && p3.classes == []
    && |page.childNodes| == 7 && page.childNodes[5] == p3 && p3 !in page.childNodes[..5]
    && ElementNames(page.childNodes[..6]) == ["p", "p", "p"]
  }

  /** The document, `html`, `body`, and `#page` with its children. */
  method BuildPage() returns (page: Node, p1: Node, p3: Node)
    ensures fresh(page) && fresh(p1) && fresh(p3)
    ensures Page(page, p1, p3)
  {
    var doc := new Node("#document", Document, null, "", []);
    var html := new Node("HTML", Element, doc, "", []);
    var body := new Node("BODY", Body, html, "", []);
    page := new Node("DIV", Element, body, "page", []);
    doc.childNodes := [html];
    html.childNodes := [body];
    body.childNodes := [page];
    p1, p3 := FillPage(page);
  }

  /** The children of `#page`: text, `p.ignoreme.myclass`, text, `p`, text,
      `p#ignoremyid`, text. */
  method FillPage(page: Node) returns (p1: Node, p3: Node)
    requires page.Linked() && page.kind == Element && page.id == "page" && page.parent != null && page.parent.kind == Body
    modifies page`childNodes
    ensures fresh(p1) && fresh(p3)
    ensures Page(page, p1, p3)
  {
    PageNames();
    var t1 := new Node("#text", Text, page, "", []);
    p1 := new Node("P", Element, page, "", ["ignoreme", "myclass"]);
    var t2 := new Node("#text", Text, page, "", []);
    var p2 := new Node("P", Element, page, "", []);
    var t3 := new Node("#text", Text, page, "", []);
    p3 := new Node("P", Element, page, "ignoremyid", []);
    var t4 := new Node("#text", Text, page, "", []);
    page.childNodes := [t1, p1, t2, p2, t3, p3, t4];
    assert page.childNodes[..6] == [t1, p1, t2, p2, t3, p3];
    assert page.childNodes[..5] == [t1, p1, t2, p2, t3];
    ParagraphNames([t1, p1, t2, p2, t3, p3]);
  }

  /** The node names of the page fit their kinds (literal facts). */
  lemma PageNames()
    ensures NameFits("#text", Text) && NameFits("P", Element)
  {
  }

  /** Text, `P`, text, `P`, text, `P`: three `p` names. */
  lemma ParagraphNames(kids: seq<Node>)
    requires |kids| == 6
    requires kids[0].nodeName == "#text" && kids[2].nodeName == "#text" && kids[4].nodeName == "#text"
    requires kids[1].nodeName == "P" && kids[3].nodeName == "P" && kids[5].nodeName == "P"
    ensures ElementNames(kids) == ["p", "p", "p"]
  {
    assert Lower("P") == "p" && Lower("#text") == "#text";
    assert ElementNames(kids[5..]) == ["p"];
    assert kids[4..][1..] == kids[5..];
    assert ElementNames(kids[4..]) == ["p"];
    assert kids[3..][1..] == kids[4..];
    assert ElementNames(kids[3..]) == ["p", "p"];
    assert kids[2..][1..] == kids[3..];
    assert kids[1..][1..] == kids[2..];
    assert ElementNames(kids[1..]) == ["p", "p", "p"];
  }

  /** The class fragment text of `p.ignoreme.myclass`. Like the other
      literal lemmas below, it holds facts about string literals apart from
      the heap so that the verifier settles them on their own. */
  lemma MyclassText()
    ensures Join(["ignoreme", "myclass"], ".") == "ignoreme.myclass"
    ensures DropTrailingDot("ignoreme.myclass") == "ignoreme.myclass"
    ensures "." + "ignoreme.myclass" == ".ignoreme.myclass"
    ensures forall k :: 0 <= k < |["ignoreme", "myclass"]| ==> ["ignoreme", "myclass"][k] != "" && ' ' !in ["ignoreme", "myclass"][k]
  {
    var parts := ["ignoreme", "myclass"];
    assert parts[1..] == ["myclass"];
    assert Join(parts, ".") == "ignoreme" + "." + "myclass";
  }
  /** The class fragment text of the remaining `myclass` (literal facts). */
  lemma MyclassAlone()
    ensures "myclass" != "" && ' ' !in "myclass" && "myclass"[|"myclass"| - 1] != '.'
    ensures "." + "myclass" == ".myclass"
  {
  }

  /** The filter `ignoreme` on `ignoreme myclass` matches the first class. */
  lemma IgnoremeMatch()
    ensures RemovedClass(["ignoreme", "myclass"], "ignoreme") == Some("ignoreme")
    ensures MaskedClasses(["ignoreme", "myclass"], "ignoreme") == ["myclass"]
    ensures RestoredClasses(["ignoreme", "myclass"], "ignoreme") == ["myclass", "ignoreme"]
  {
    IgnoremeFound();
    var parts := ["ignoreme", "myclass"];
    MaskRemovesOneName(parts, "ignoreme");
    RestoreAppendsRemoved(parts, "ignoreme");
    assert Drop(parts, "ignoreme") == ["myclass"];
  }

  lemma IgnoremeFound()
    ensures RemovedClass(["ignoreme", "myclass"], "ignoreme") == Some("ignoreme")
  {
    var parts := ["ignoreme", "myclass"];
    assert parts[1..] == ["myclass"];
    assert ClassName(parts) == "ignoreme" + " " + "myclass";
    SplitWhole("ignoreme", ' ');
    assert OccursAt("ignoreme", "ignoreme myclass", 0);
  }

  /** Three `p` siblings up to the target. */
  lemma Chain()
    ensures PositionalChain(["p", "p", "p"]) == "p:first-child + p + p"
  {
    var marked := ["p:first-child", "p", "p"];
    assert ["p", "p", "p"][0 := "p:first-child"] == marked;
    JoinThree("p:first-child", "p", "p", " + ");
  }

  /** Three parts joined. */
  lemma JoinThree(a: string, b: string, c: string, sep: string)
    ensures Join([a, b, c], sep) == a + sep + b + sep + c
  {
    assert [a, b, c][1..] == [b, c] && [b, c][1..] == [c];
    assert Join([b, c], sep) == b + sep + c;
    assert a + sep + (b + sep + c) == a + sep + b + sep + c;
  }

  /** The expected selectors, as `#page > ` and the child's fragment
      (literal facts). */
  lemma ChildSelectors()
    ensures "#page > " + ".ignoreme.myclass" == "#page > .ignoreme.myclass"
    ensures "#page > " + "p:first-child + p + p" == "#page > p:first-child + p + p"
    ensures "#page > " + ".myclass" == "#page > .myclass"
  {
  }

  /** `#page` with no filters, or with filters that do not touch it. */
  lemma PageSelector(page: Node, ignoreId: string, ignoreClasses: string)
    requires page.Linked() && page.kind == Element && page.id == "page" && page.parent != null && page.parent.kind == Body
    requires ignoreId != "page"
    ensures WalkEnds(page, ignoreId) && Walk(page, ignoreId) == {page}
    ensures Selector(page, ignoreId, ignoreClasses) == "#page"
  {
    KeptIdIsWholeSelector(page, ignoreId, ignoreClasses);
  }

  /** A child of `#page` that has no id left after masking: the walk visits
      it and `#page`, and the selector is `#page > ` and its fragment. */
  lemma ChildOfPage(page: Node, e: Node, ignoreId: string, ignoreClasses: string, fragment: string)
    requires page.Linked() && page.kind == Element && page.id == "page" && page.parent != null && page.parent.kind == Body
    requires ignoreId != "page"
    requires e.Linked() && e.parent == page && e.kind == Element && MaskedId(e.id, ignoreId) == ""
    requires Fragment(e, "", MaskedClasses(e.classes, ignoreClasses)) == fragment
    ensures WalkEnds(e, ignoreId) && Walk(e, ignoreId) == {e, page}
    ensures Selector(e, ignoreId, ignoreClasses) == "#page > " + fragment
  {
    PageSelector(page, ignoreId, ignoreClasses);
  }

  /** Step 2 of the case: `p.ignoreme.myclass` shows both classes. */
  lemma MyclassFragment(p1: Node)
    requires p1.parent != null && !IsRoot(p1) && p1.kind == Element && p1.id == "" && p1.classes == ["ignoreme", "myclass"]
    ensures Fragment(p1, "", MaskedClasses(p1.classes, "")) == ".ignoreme.myclass"
  {
    NoClassFilterShowsEveryClass(p1, "");
    MyclassText();
  }

  /** The selector of `.myclass` with no filters. */
  lemma MyclassSelector(page: Node, p1: Node)
    requires page.Linked() && page.kind == Element && page.id == "page" && page.parent != null && page.parent.kind == Body
    requires p1.Linked() && p1.parent == page && p1.kind == Element && p1.id == "" && p1.classes == ["ignoreme", "myclass"]
    ensures WalkEnds(p1, "") && Walk(p1, "") == {p1, page}
    ensures Selector(p1, "", "") == "#page > .ignoreme.myclass"
  {
    MyclassFragment(p1);
    ChildOfPage(page, p1, "", "", ".ignoreme.myclass");
    ChildSelectors();
  }

  /** Step 3: the third `p`, its id masked and no classes, is placed by position. */
  lemma ThirdFragment(page: Node, p3: Node)
    requires p3.parent == page && page.kind == Element && p3.kind == Element && p3.nodeName == "P" && p3.classes == []
    requires |page.childNodes| == 7 && page.childNodes[5] == p3 && p3 !in page.childNodes[..5]
    requires ElementNames(page.childNodes[..6]) == ["p", "p", "p"]
    ensures Fragment(p3, "", MaskedClasses(p3.classes, "")) == "p:first-child + p + p"
  {
    NoClassFilterKeepsClasses([]);
    assert Lower(p3.nodeName) == "p";
    CollectIsPrefixNames(page.childNodes, p3, 5);
    Chain();
  }

  /** The selector of `#ignoremyid` with that id ignored. */
  lemma IgnoredIdSelector(page: Node, p3: Node)
    requires page.Linked() && page.kind == Element && page.id == "page" && page.parent != null && page.parent.kind == Body
    requires p3.Linked() && p3.parent == page && p3.kind == Element && p3.nodeName == "P" && p3.id == "ignoremyid" && p3.classes == []
    requires |page.childNodes| == 7 && page.childNodes[5] == p3 && p3 !in page.childNodes[..5]
    requires ElementNames(page.childNodes[..6]) == ["p", "p", "p"]
    ensures WalkEnds(p3, "ignoremyid") && Walk(p3, "ignoremyid") == {p3, page}
    ensures Selector(p3, "ignoremyid", "") == "#page > p:first-child + p + p"
  {
    ThirdFragment(page, p3);
    ChildOfPage(page, p3, "ignoremyid", "", "p:first-child + p + p");
    ChildSelectors();
  }

  /** Step 5: with `ignoreme` masked only `myclass` shows. */
  lemma IgnoredClassFragment(p1: Node)
    requires p1.parent != null && !IsRoot(p1) && p1.kind == Element && p1.classes == ["ignoreme", "myclass"]
    ensures Fragment(p1, "", MaskedClasses(p1.classes, "ignoreme")) == ".myclass"
  {
    IgnoremeMatch();
    MyclassAlone();
    OneClassFragment(p1, "myclass");
  }

  /** A single remaining class `c` gives the fragment `.c`. */
  lemma OneClassFragment(e: Node, name: string)
    requires !IsRoot(e) && IsElement(e.kind)
    requires name != "" && ' ' !in name && name[|name| - 1] != '.'
    ensures Fragment(e, "", [name]) == "." + name
  {
    ClassFragment(e, [name]);
    assert Join([name], ".") == name;
  }

  /** The selector of `.ignoreme` with `ignoremyid` and `ignoreme` ignored,
      and the class order it leaves behind. */
  lemma IgnoredClassSelector(page: Node, p1: Node)
    requires page.Linked() && page.kind == Element && page.id == "page" && page.parent != null && page.parent.kind == Body
    requires p1.Linked() && p1.parent == page && p1.kind == Element && p1.id == "" && p1.classes == ["ignoreme", "myclass"]
    ensures WalkEnds(p1, "ignoremyid") && Walk(p1, "ignoremyid") == {p1, page}
    ensures Selector(p1, "ignoremyid", "ignoreme") == "#page > .myclass"
    ensures RestoredClasses(p1.classes, "ignoreme") == ["myclass", "ignoreme"]
  {
    IgnoremeMatch();
    IgnoredClassFragment(p1);
    ChildOfPage(page, p1, "ignoremyid", "ignoreme", ".myclass");
    ChildSelectors();
  }

  /** `getSelector($('#page')[0])`. */
  method ById(page: Node, p1: Node, p3: Node) returns (selector: string)
    requires Page(page, p1, p3)
    modifies page
    ensures selector == "#page" && Page(page, p1, p3)
  {
    PageSelector(page, "", "");
    NoClassFilterKeepsClasses(page.classes);
    selector := GetSelector(page, "", "");
  }

  /** `getSelector($('.myclass')[0])`: both classes show, then the parent's id. */
  method ByClass(page: Node, p1: Node, p3: Node) returns (selector: string)
    requires Page(page, p1, p3)
    modifies page, p1
    ensures selector == "#page > .ignoreme.myclass" && Page(page, p1, p3)
  {
    MyclassSelector(page, p1);
    NoClassFilterKeepsClasses(page.classes);
    NoClassFilterKeepsClasses(p1.classes);
    selector := GetSelector(p1, "", "");
  }

  /** `getSelector($('#ignoremyid')[0], 'ignoremyid')`: the id is masked, so
      the position among the siblings is used and the walk goes on to #page;
      the id is back afterwards. */
  method IgnoringId(page: Node, p1: Node, p3: Node) returns (selector: string)
    requires Page(page, p1, p3)
    modifies page, p3
    ensures selector == "#page > p:first-child + p + p" && Page(page, p1, p3)
  {
    IgnoredIdSelector(page, p3);
    NoClassFilterKeepsClasses(page.classes);
    NoClassFilterKeepsClasses(p3.classes);
    selector := GetSelector(p3, "ignoremyid", "");
  }

  /** `getSelector($('.ignoreme')[0], 'ignoremyid', 'ignoreme')`: only
      `myclass` shows, and `ignoreme` is back afterwards, now last. */
  method IgnoringClass(page: Node, p1: Node, p3: Node) returns (selector: string)
    requires Page(page, p1, p3)
    modifies page, p1
    ensures selector == "#page > .myclass"
    ensures p1.classes == ["myclass", "ignoreme"]
  {
    IgnoredClassSelector(page, p1);
    selector := GetSelector(p1, "ignoremyid", "ignoreme");
  }

  /** Literal facts for the two-class page below. */
  lemma TwoClassTexts()
    ensures "a" != "" && ' ' !in "a" && "a"[|"a"| - 1] != '.'
    ensures "b" != "" && ' ' !in "b" && "b"[|"b"| - 1] != '.'
    ensures "#page > " + ("." + "b") == "#page > .b"
    ensures "#page > " + ("." + "a") == "#page > .a"
  {
  }

  /** `div#page` holding one `p` without an id. */
  ghost predicate OneChildPage(page: Node, p: Node)
    reads page, p
  {
    page.Linked() && page.kind == Element && page.id == "page" && page.parent != null && page.parent.kind == Body
    && p.Linked() && p.parent == page && p.kind == Element && p.id == ""
  }

  /** The document, `html`, `body`, and `div#page > p.a.b`. */
  method BuildTwoClassPage() returns (page: Node, p: Node)
    ensures fresh(page) && fresh(p)
    ensures OneChildPage(page, p) && p.classes == ["a", "b"]
  {
    var doc := new Node("#document", Document, null, "", []);
    var html := new Node("HTML", Element, doc, "", []);
    var body := new Node("BODY", Body, html, "", []);
    page := new Node("DIV", Element, body, "page", []);
    p := new Node("P", Element, page, "", ["a", "b"]);
    doc.childNodes := [html];
    html.childNodes := [body];
    body.childNodes := [page];
    page.childNodes := [p];
  }

  /** The filter `a b` on `p.a.b` leaves `b`; on `p.b.a` it leaves `a`. */
  lemma TwoClassSelector(page: Node, p: Node)
    requires OneChildPage(page, p)
    requires p.classes == ["a", "b"] || p.classes == ["b", "a"]
    ensures WalkEnds(p, "") && Walk(p, "") == {p, page}
    ensures p.classes == ["a", "b"] ==> Selector(p, "", "a b") == "#page > .b"
    ensures p.classes == ["b", "a"] ==> Selector(p, "", "a b") == "#page > .a"
    ensures p.classes == ["a", "b"] ==> RestoredClasses(p.classes, "a b") == ["b", "a"]
  {
    TwoTokenFilterNotStable();
    TwoClassTexts();
    var shown := if p.classes == ["a", "b"] then "b" else "a";
    OneClassFragment(p, shown);
    ChildOfPage(page, p, "", "a b", "." + shown);
  }

  /** `getSelector(p, '', 'a b')` on `div#page > p` whose classes are `a b`
      or `b a`. */
  method TwoClassFilterOnce(page: Node, p: Node) returns (selector: string)
    requires OneChildPage(page, p) && (p.classes == ["a", "b"] || p.classes == ["b", "a"])
    modifies page, p
    ensures OneChildPage(page, p)
    ensures old(p.classes) == ["a", "b"] ==> selector == "#page > .b" && p.classes == ["b", "a"]
    ensures old(p.classes) == ["b", "a"] ==> selector == "#page > .a"
  {
    TwoClassSelector(page, p);
    selector := GetSelector(p, "", "a b");
  }

  /** `getSelector(p, '', 'a b')` twice on `div#page > p.a.b`. The first call
      masks `a` and gives `#page > .b`; restoring appends `a`, so the classes
      are `b a` afterwards, the second call masks `b` and gives `#page > .a`. */
  method TwoClassFilterTwice() returns (first: string, second: string)
    ensures first == "#page > .b" && second == "#page > .a"
  {
    var page, p := BuildTwoClassPage();
    first := TwoClassFilterOnce(page, p);
    second := TwoClassFilterOnce(page, p);
  }

  /** The QUnit case in order, on one page: the four selectors it asserts, and
      that the ignored id and the ignored class are found again afterwards. */
  method SelectorBasics() returns (byId: string, byClass: string, idIgnored: string, idRestored: bool,
                                   classIgnored: string, classRestored: bool)
    ensures byId == "#page"
    ensures byClass == "#page > .ignoreme.myclass"
    ensures idIgnored == "#page > p:first-child + p + p"
    ensures idRestored
    ensures classIgnored == "#page > .myclass"
    ensures classRestored
  {
    var page, p1, p3 := BuildPage();
    byId := ById(page, p1, p3);
    byClass := ByClass(page, p1, p3);
    idIgnored := IgnoringId(page, p1, p3);
    idRestored := p3.id == "ignoremyid";
    classIgnored := IgnoringClass(page, p1, p3);
    classRestored := "ignoreme" in p1.classes;
  }
}

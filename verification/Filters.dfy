/** The ignore filters of `removeIgnoreAttributes` and their undoing by
    `restoreIgnoredAttributes`, on values: an id, a class list and the two
    literal filter strings ("" meaning no filter). */
module Filters {
  import opened Strings

  /** `notEmpty(s)`: a value that is present and has at least one character. */
  function NotEmpty(s: Option<string>): (r: bool)
    ensures r <==> s != None && s.value != ""
  {
    match s
    case None => false
    case Some(v) => |v| > 0
  }

  // ---------------------------------------------------------------- ids

  /** Whether the id is ignored: a non-empty literal filter is compiled to
      `^filter$` with no flags (the flag argument is the still-undefined loop
      variable `i`), so it matches exactly that id, case-sensitively. */
  predicate IdIgnored(id: string, ignoreId: string)
  {
    NotEmpty(Some(ignoreId)) && NotEmpty(Some(id)) && id == ignoreId
  }

  /** The id the fragment sees after masking. */
  function MaskedId(id: string, ignoreId: string): string
  {
    if IdIgnored(id, ignoreId) then "" else id
  }

  /** The id remembered for restoration (`tempId`). */
  function RemovedId(id: string, ignoreId: string): string
  {
    if IdIgnored(id, ignoreId) then id else ""
  }

  /** `restoreIgnoredAttributes` writes the id back only when one was removed. */
  function RestoreId(current: string, removed: string): string
  {
    if |removed| > 0 then removed else current
  }

  /** The id filter removes exactly an id equal to a non-empty filter, and
      restoring gives back the very same id. */
  lemma IdMaskRoundTrip(id: string, ignoreId: string)
    ensures MaskedId(id, ignoreId) != id <==> ignoreId != "" && id == ignoreId
    ensures RestoreId(MaskedId(id, ignoreId), RemovedId(id, ignoreId)) == id
  {
  }

  // ------------------------------------------- the class regular expression

  /** The alternatives of the class filter: `ignoreClasses.split(' ')`. */
  function ClassAlternatives(ignoreClasses: string): seq<string>
  {
    Split(ignoreClasses, ' ')
  }

  function Group(token: string): string
  {
    "(" + token + ")"
  }

  function Groups(tokens: seq<string>): (r: seq<string>)
    ensures |r| == |tokens|
  {
    seq(|tokens|, k requires 0 <= k < |tokens| => Group(tokens[k]))
  }

  /** The regular-expression source built from the tokens: `(t1)|(t2)|…`. */
  function AlternationSource(tokens: seq<string>): string
  {
    Join(Groups(tokens), "|")
  }

  function Ungroup(piece: string): string
  {
    if |piece| >= 2 && piece[0] == '(' && piece[|piece| - 1] == ')' then piece[1..|piece| - 1] else piece
  }

  /** Reads the alternatives back out of a source of the form `(t1)|(t2)|…`. */
  function ParseAlternation(source: string): seq<string>
  {
    var pieces := Split(source, '|');
    seq(|pieces|, k requires 0 <= k < |pieces| => Ungroup(pieces[k]))
  }

  /** The source string has exactly the filter's tokens as its alternatives,
      in order, as long as no token holds a `|` of its own. */
  lemma AlternationRoundTrip(tokens: seq<string>)
    requires |tokens| >= 1
    requires forall k :: 0 <= k < |tokens| ==> '|' !in tokens[k]
    ensures ParseAlternation(AlternationSource(tokens)) == tokens
  {
    var groups := Groups(tokens);
    forall k | 0 <= k < |groups| ensures '|' !in groups[k] {
      assert groups[k] == ['('] + tokens[k] + [')'];
    }
    SplitJoin(groups, '|');
    forall k | 0 <= k < |tokens| ensures Ungroup(groups[k]) == tokens[k] {
      assert groups[k][1..|groups[k]| - 1] == tokens[k];
    }
  }

  /** `t` occurs in `s` at position `q`. */
  predicate OccursAt(t: string, s: string, q: nat)
  {
    q <= |s| && t <= s[q..]
  }

  /** A match of the class expression: where it starts, which alternative
      matched, and the matched text. */
  datatype Match = Match(pos: nat, alt: nat, text: string)

  /** The first alternative, from index `k` on, that matches at position `q`. */
  function FirstAlternative(s: string, q: nat, alts: seq<string>, k: nat): (r: Option<nat>)
    requires k <= |alts|
    decreases |alts| - k
    ensures r.Some? ==> k <= r.value < |alts| && OccursAt(alts[r.value], s, q)
    ensures r.Some? ==> forall j :: k <= j < r.value ==> !OccursAt(alts[j], s, q)
    ensures r.None? ==> forall j :: k <= j < |alts| ==> !OccursAt(alts[j], s, q)
  {
    if k == |alts| then None
    else if OccursAt(alts[k], s, q) then Some(k)
    else FirstAlternative(s, q, alts, k + 1)
  }

  /** `s.match(re)` for a non-global alternation of literals, searched from
      position `p`: the leftmost position where some alternative matches, and
      there the first alternative in order (an empty alternative matches
      everywhere, also at the end of `s`). */
  function LeftmostFrom(s: string, alts: seq<string>, p: nat): (r: Option<Match>)
    requires p <= |s|
    decreases |s| - p
    ensures r.Some? ==> p <= r.value.pos <= |s| && r.value.alt < |alts|
    ensures r.Some? ==> r.value.text == alts[r.value.alt] && OccursAt(r.value.text, s, r.value.pos)
    ensures r.Some? ==> forall j :: 0 <= j < r.value.alt ==> !OccursAt(alts[j], s, r.value.pos)
    ensures r.Some? ==> forall q, j :: p <= q < r.value.pos && 0 <= j < |alts| ==> !OccursAt(alts[j], s, q)
    ensures r.None? ==> forall q, j :: p <= q <= |s| && 0 <= j < |alts| ==> !OccursAt(alts[j], s, q)
  {
    match FirstAlternative(s, p, alts, 0)
    case Some(j) => Some(Match(p, j, alts[j]))
    case None => if p == |s| then None else LeftmostFrom(s, alts, p + 1)
  }

  /** `element.className` for a class list. */
  function ClassName(classes: seq<string>): string
  {
    Join(classes, " ")
  }

  /** The array `match` returns: the matched text, then one entry per group,
      the text for the group of the matched alternative and `undefined`
      (which `join` writes as "") for the others. */
  function MatchArray(groups: nat, m: Match): seq<string>
  {
    [m.text] + seq(groups, k requires 0 <= k < groups => if k == m.alt then m.text else "")
  }

  /** `tempClasses`: the match array joined with spaces, or "" when there is no
      class filter or no match. The `-processed` term added after it is always
      "" (operator precedence), so it contributes nothing. */
  function ClassMatchText(classes: seq<string>, ignoreClasses: string): string
  {
    if !NotEmpty(Some(ignoreClasses)) then ""
    else
      var alts := ClassAlternatives(ignoreClasses);
      match LeftmostFrom(ClassName(classes), alts, 0)
      case None => ""
      case Some(m) => Join(MatchArray(|alts|, m), " ")
  }

  /** The class name the filter takes away, if any: the non-empty text of the
      leftmost match. */
  function RemovedClass(classes: seq<string>, ignoreClasses: string): Option<string>
  {
    if !NotEmpty(Some(ignoreClasses)) then None
    else
      match LeftmostFrom(ClassName(classes), ClassAlternatives(ignoreClasses), 0)
      case None => None
      case Some(m) => if m.text == "" then None else Some(m.text)
  }

  // ------------------------------------------ jQuery removeClass / addClass

  /** The classes that are not among `words`. */
  function Without(classes: seq<string>, words: seq<string>): (r: seq<string>)
  {
    if classes == [] then []
    else if classes[0] in words then Without(classes[1..], words)
    else [classes[0]] + Without(classes[1..], words)
  }

  /** `$(element).removeClass(value)`: every class equal to a word of `value`
      goes, all its copies included. */
  function RemoveClass(classes: seq<string>, value: string): seq<string>
  {
    Without(classes, Words(value))
  }

  function AddOne(classes: seq<string>, word: string): seq<string>
  {
    if word in classes then classes else classes + [word]
  }

  function AddAll(classes: seq<string>, words: seq<string>): seq<string>
    decreases |words|
  {
    if words == [] then classes else AddAll(AddOne(classes, words[0]), words[1..])
  }

  /** `$(element).addClass(value)`: each word of `value` not yet present is
      appended at the end. */
  function AddClass(classes: seq<string>, value: string): seq<string>
  {
    AddAll(classes, Words(value))
  }

  /** The classes the fragment sees after masking. */
  function MaskedClasses(classes: seq<string>, ignoreClasses: string): seq<string>
  {
    RemoveClass(classes, ClassMatchText(classes, ignoreClasses))
  }

  /** The classes after masking and restoring. */
  function RestoredClasses(classes: seq<string>, ignoreClasses: string): seq<string>
  {
    AddClass(MaskedClasses(classes, ignoreClasses), ClassMatchText(classes, ignoreClasses))
  }

  /** Every copy of `name` taken out of `classes`. */
  function Drop(classes: seq<string>, name: string): (r: seq<string>)
    ensures forall c :: c in r <==> c in classes && c != name
  {
    if classes == [] then []
    else if classes[0] == name then Drop(classes[1..], name)
    else [classes[0]] + Drop(classes[1..], name)
  }

  // ----------------------------------------------------------------- lemmas

  /** The words of `tempClasses` are the removed class name and nothing else. */
  lemma {:induction false} MatchTextWords(classes: seq<string>, ignoreClasses: string)
    ensures RemovedClass(classes, ignoreClasses).None? ==> Words(ClassMatchText(classes, ignoreClasses)) == []
    ensures RemovedClass(classes, ignoreClasses).Some? ==>
      forall w :: w in Words(ClassMatchText(classes, ignoreClasses)) <==> w == RemovedClass(classes, ignoreClasses).value
  {
    if NotEmpty(Some(ignoreClasses)) {
      var alts := ClassAlternatives(ignoreClasses);
      var r := LeftmostFrom(ClassName(classes), alts, 0);
      if r.Some? {
        MatchArrayWords(|alts|, r.value, alts[r.value.alt]);
      } else {
        assert Split("", ' ') == [""];
      }
    } else {
      assert Split("", ' ') == [""];
    }
  }

  /** The words of a joined match array are the matched text alone, or none
      when it is empty. */
  lemma MatchArrayWords(groups: nat, m: Match, alt: string)
    requires m.alt < groups && ' ' !in alt && m.text == alt
    ensures m.text == "" ==> Words(Join(MatchArray(groups, m), " ")) == []
    ensures forall w :: w in Words(Join(MatchArray(groups, m), " ")) <==> w == m.text && m.text != ""
  {
    var ma := MatchArray(groups, m);
    forall k | 0 <= k < |ma| ensures ' ' !in ma[k] {
      if k > 0 { assert ma[k] == "" || ma[k] == alt; }
    }
    SplitJoin(ma, ' ');
    assert Words(Join(ma, " ")) == NonEmpty(ma);
    var text := m.text;
    forall w ensures w in NonEmpty(ma) <==> w == text && text != "" {
      if w == text && text != "" {
        assert ma[0] == w;
      }
      if w in ma && w != "" {
        var i :| 0 <= i < |ma| && ma[i] == w;
        assert i == 0 || ma[i] == "" || ma[i] == text;
      }
    }
    if text == "" {
      AllEmptyParts(ma);
    }
  }

  lemma {:induction false} AllEmptyParts(parts: seq<string>)
    requires forall k :: 0 <= k < |parts| ==> parts[k] == ""
    ensures NonEmpty(parts) == []
  {
    if parts != [] {
      AllEmptyParts(parts[1..]);
    }
  }

  lemma {:induction false} WithoutOneName(classes: seq<string>, words: seq<string>, name: string)
    requires forall w :: w in words <==> w == name
    ensures Without(classes, words) == Drop(classes, name)
  {
    if classes != [] {
      WithoutOneName(classes[1..], words, name);
    }
  }

  lemma {:induction false} WithoutNothing(classes: seq<string>, words: seq<string>)
    requires words == []
    ensures Without(classes, words) == classes
  {
    if classes != [] {
      WithoutNothing(classes[1..], words);
      assert [classes[0]] + classes[1..] == classes;
    }
  }

  lemma {:induction false} AddAllPresent(classes: seq<string>, words: seq<string>, name: string)
    requires forall w :: w in words ==> w == name
    requires name in classes
    ensures AddAll(classes, words) == classes
    decreases |words|
  {
    if words != [] {
      assert words[0] in words;
      assert forall w :: w in words[1..] ==> w in words;
      AddAllPresent(classes, words[1..], name);
    }
  }

  /** Masking removes the copies of at most one class name, the leftmost hit,
      and keeps every other class in its order. */
  lemma MaskRemovesOneName(classes: seq<string>, ignoreClasses: string)
    ensures MaskedClasses(classes, ignoreClasses) ==
      match RemovedClass(classes, ignoreClasses)
      case None => classes
      case Some(name) => Drop(classes, name)
  {
    var text := ClassMatchText(classes, ignoreClasses);
    MatchTextWords(classes, ignoreClasses);
    match RemovedClass(classes, ignoreClasses)
    case None =>
      assert Words(text) == [];
      WithoutNothing(classes, Words(text));
    case Some(name) =>
      WithoutOneName(classes, Words(text), name);
  }

  /** A class is hidden by masking exactly when it is the one class name the
      filter hit; in particular `-processed` classes are hidden only when the
      filter itself names them. */
  lemma MaskedClassMembers(classes: seq<string>, ignoreClasses: string, c: string)
    ensures c in MaskedClasses(classes, ignoreClasses) <==>
      c in classes && RemovedClass(classes, ignoreClasses) != Some(c)
  {
    MaskRemovesOneName(classes, ignoreClasses);
  }

  /** Restoring re-appends the removed class name at the end of the list: the
      remaining classes keep their order and the removed name comes last,
      once, whether or not it was a whole class before. */
  lemma RestoreAppendsRemoved(classes: seq<string>, ignoreClasses: string)
    ensures RestoredClasses(classes, ignoreClasses) ==
      match RemovedClass(classes, ignoreClasses)
      case None => classes
      case Some(name) => Drop(classes, name) + [name]
  {
    var text := ClassMatchText(classes, ignoreClasses);
    var words := Words(text);
    MatchTextWords(classes, ignoreClasses);
    MaskRemovesOneName(classes, ignoreClasses);
    match RemovedClass(classes, ignoreClasses)
    case None =>
      assert words == [];
    case Some(name) =>
      var masked := Drop(classes, name);
      assert name in words;
      assert words[0] in words;
      assert forall w :: w in words[1..] ==> w in words;
      assert AddOne(masked, name) == masked + [name];
      AddAllPresent(masked + [name], words[1..], name);
  }

  /** The class set survives a mask-and-restore exactly when the matched text
      was one of the classes (or nothing was matched); a match inside a longer
      class name restores a class that was never there. */
  lemma RestoreKeepsClassSet(classes: seq<string>, ignoreClasses: string)
    ensures (set c | c in RestoredClasses(classes, ignoreClasses)) == (set c | c in classes)
      <==> RemovedClass(classes, ignoreClasses).None? || RemovedClass(classes, ignoreClasses).value in classes
  {
    RestoreAppendsRemoved(classes, ignoreClasses);
    match RemovedClass(classes, ignoreClasses)
    case None =>
    case Some(name) =>
      var r := Drop(classes, name) + [name];
      assert name in r;
      if name in classes {
        assert (set c | c in r) == (set c | c in classes);
      } else {
        var after, before := (set c | c in r), (set c | c in classes);
        assert name in after && name !in before;
        assert after != before;
      }
  }

  /** A class list as the DOM holds it: every class a non-empty token
      without spaces. */
  predicate ClassTokens(classes: seq<string>)
  {
    forall c :: c in classes ==> c != "" && ' ' !in c
  }

  /** Masking and restoring keep a list of class tokens a list of class
      tokens: the removed name is a whole word of the filter, never empty and
      never holding a space. */
  lemma MaskKeepsTokens(classes: seq<string>, ignoreClasses: string)
    requires ClassTokens(classes)
    ensures ClassTokens(MaskedClasses(classes, ignoreClasses))
    ensures ClassTokens(RestoredClasses(classes, ignoreClasses))
  {
    MaskRemovesOneName(classes, ignoreClasses);
    RestoreAppendsRemoved(classes, ignoreClasses);
  }

  /** With no class filter nothing is masked, so `-processed` classes are kept
      like any other class. */
  lemma NoClassFilterKeepsClasses(classes: seq<string>)
    ensures MaskedClasses(classes, "") == classes
    ensures RestoredClasses(classes, "") == classes
  {
    RestoreAppendsRemoved(classes, "");
    MaskRemovesOneName(classes, "");
  }

  /** `t` is found in a class name string that lists it. */
  lemma {:induction false} ClassOccurs(classes: seq<string>, t: string)
    requires t in classes
    ensures exists q: nat :: OccursAt(t, ClassName(classes), q)
  {
    if classes[0] == t {
      if |classes| > 1 {
        assert ClassName(classes) == t + (" " + ClassName(classes[1..]));
      }
      assert OccursAt(t, ClassName(classes), 0);
    } else {
      ClassOccurs(classes[1..], t);
      var q: nat :| OccursAt(t, ClassName(classes[1..]), q);
      var pre := classes[0] + " ";
      var rest := ClassName(classes[1..]);
      assert ClassName(classes) == pre + rest;
      assert (pre + rest)[|pre| + q..] == rest[q..];
      assert OccursAt(t, ClassName(classes), |pre| + q);
    }
  }

  /** With no class filter or a single-token one, a second mask after a
      restore sees the same classes as the first. */
  lemma SingleTokenMaskStable(classes: seq<string>, token: string)
    requires ' ' !in token
    ensures MaskedClasses(RestoredClasses(classes, token), token) == MaskedClasses(classes, token)
  {
    if token == "" {
      NoClassFilterKeepsClasses(classes);
    } else {
      SplitWhole(token, ' ');
      assert ClassAlternatives(token) == [token];
      var restored := RestoredClasses(classes, token);
      RestoreAppendsRemoved(classes, token);
      MaskRemovesOneName(classes, token);
      MaskRemovesOneName(restored, token);
      match RemovedClass(classes, token)
      case None =>
      case Some(name) =>
        assert name == token;
        assert token in restored;
        ClassOccurs(restored, token);
        var q: nat :| OccursAt(token, ClassName(restored), q);
        var again := LeftmostFrom(ClassName(restored), [token], 0);
        assert again.Some?;
        assert RemovedClass(restored, token) == Some(token);
        DropTwice(classes, token);
    }
  }


  lemma {:induction false} DropTwice(classes: seq<string>, name: string)
    ensures Drop(Drop(classes, name) + [name], name) == Drop(classes, name)
  {
    if classes == [] {
      assert Drop([name], name) == Drop([], name);
    } else {
      DropTwice(classes[1..], name);
      if classes[0] != name {
        assert Drop(classes, name) + [name] == [classes[0]] + (Drop(classes[1..], name) + [name]);
      }
    }
  }

  /** A mask-restore round is not stable for a filter of two classes: with
      classes `a b` and filter `a b` the first round shows `b`, restores to
      `b a`, and the second round shows `a`. */
  lemma TwoTokenFilterNotStable()
    ensures MaskedClasses(["a", "b"], "a b") == ["b"]
    ensures RestoredClasses(["a", "b"], "a b") == ["b", "a"]
    ensures MaskedClasses(["b", "a"], "a b") == ["a"]
  {
    FilterAB();
    MaskRemovesOneName(["a", "b"], "a b");
    MaskRemovesOneName(["b", "a"], "a b");
    RestoreAppendsRemoved(["a", "b"], "a b");
    assert Drop(["a", "b"], "a") == ["b"];
    assert Drop(["b", "a"], "b") == ["a"];
  }

  /** The filter `a b` takes `a` from `a b` and `b` from `b a`. */
  lemma FilterAB()
    ensures RemovedClass(["a", "b"], "a b") == Some("a")
    ensures RemovedClass(["b", "a"], "a b") == Some("b")
  {
    assert Split("a b", ' ') == ["a", "b"] by {
      SplitPieceThen("a", ' ', "b");
      SplitWhole("b", ' ');
      assert "a b" == "a" + [' '] + "b";
    }
    assert ClassName(["a", "b"]) == "a b";
    assert ClassName(["b", "a"]) == "b a";
    assert OccursAt("a", "a b", 0);
    assert FirstAlternative("a b", 0, ["a", "b"], 0) == Some(0);
    assert OccursAt("b", "b a", 0);
    assert !OccursAt("a", "b a", 0);
    assert FirstAlternative("b a", 0, ["a", "b"], 1) == Some(1);
  }

  /** The filter is searched anywhere in the class name string, so a token
      can hit inside a longer class and use up the one match: filter `a b`
      against the classes `xb a` hits the `b` of `xb`, hides nothing (not even
      the class `a` it names exactly), and restoring adds a class `b`. */
  lemma SubstringHitMissesExactClass()
    ensures RemovedClass(["xb", "a"], "a b") == Some("b")
    ensures MaskedClasses(["xb", "a"], "a b") == ["xb", "a"]
    ensures RestoredClasses(["xb", "a"], "a b") == ["xb", "a", "b"]
  {
    assert Split("a b", ' ') == ["a", "b"] by {
      SplitPieceThen("a", ' ', "b");
      SplitWhole("b", ' ');
      assert "a b" == "a" + [' '] + "b";
    }
    var classes := ["xb", "a"];
    assert classes[1..] == ["a"];
    assert ClassName(classes) == "xb a";
    assert !OccursAt("a", "xb a", 0) && !OccursAt("b", "xb a", 0);
    assert FirstAlternative("xb a", 0, ["a", "b"], 0) == None;
    assert !OccursAt("a", "xb a", 1) && OccursAt("b", "xb a", 1);
    assert FirstAlternative("xb a", 1, ["a", "b"], 0) == Some(1);
    MaskRemovesOneName(classes, "a b");
    RestoreAppendsRemoved(classes, "a b");
    assert Drop(classes, "b") == classes;
  }

  /** A filter token that is only part of a class name restores a class that
      was not there: filter `my` against the class `myclass`. */
  lemma PartialMatchAddsClass()
    ensures MaskedClasses(["myclass"], "my") == ["myclass"]
    ensures RestoredClasses(["myclass"], "my") == ["myclass", "my"]
  {
    SplitWhole("my", ' ');
    assert ClassName(["myclass"]) == "myclass";
    assert OccursAt("my", "myclass", 0);
    assert FirstAlternative("myclass", 0, ["my"], 0) == Some(0);
    assert RemovedClass(["myclass"], "my") == Some("my");
    MaskRemovesOneName(["myclass"], "my");
    RestoreAppendsRemoved(["myclass"], "my");
    assert Drop(["myclass"], "my") == ["myclass"];
  }
}

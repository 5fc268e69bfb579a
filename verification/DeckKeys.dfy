/**
 List keys for the children of a deck: `walkDeckChildren` of
 ui_mockups/LC Connect Admin Dashboard/support.js.
 */
module DeckKeys {
  import opened Prelude
  import TemplateExpr

  /** A kept child: text (blank or not), an element with its slide id attribute, or anything else. */
  datatype Node = Text(blank: bool) | Element(tag: string, slideId: Option<string>) | Other

  datatype Key = Name(s: string) | Position(j: nat)

  predicate IsAux(tag: string) {
    tag in {"template", "script", "style", "sc-helmet", "helmet"}
  }

  predicate IsControlFlow(tag: string) {
    tag in {"sc-if", "sc-for", "sc-else", "dc-import", "x-import"}
  }

  predicate IsSlide(n: Node) {
    n.Element? && !IsAux(n.tag) && !IsControlFlow(n.tag)
  }

  /** `^[0-9a-f]{8}$` */
  predicate IsSlideId(s: string) {
    |s| == 8 && forall i | 0 <= i < 8 :: '0' <= s[i] <= '9' || 'a' <= s[i] <= 'f'
  }

  /** The key as the string it becomes. */
  function KeyText(k: Key): string {
    match k
    case Name(s) => s
    case Position(j) => TemplateExpr.NatText(j)
  }

  // ----- the keys, child by child -----

  /** The id of the element at or after `j`, when that element is a slide. */
  function NextId(nodes: seq<Node>, j: nat): Option<string>
    decreases |nodes| - j
  {
    if j >= |nodes| then None
    else if nodes[j].Element? then (if IsSlide(nodes[j]) then nodes[j].slideId else None)
    else NextId(nodes, j + 1)
  }

  /** Whitespace belongs to the slide it precedes. */
  function Base(nodes: seq<Node>, j: nat): string {
    match NextId(nodes, j)
    case Some(id) => if id != "" then "omid-ws:" + id else "omid-ws:aux"
    case None => "omid-ws:aux"
  }

  /** How many of the first `n` children are text with this base. */
  function Earlier(nodes: seq<Node>, n: nat, base: string): nat
    requires n <= |nodes|
  {
    if n == 0 then 0
    else Earlier(nodes, n - 1, base) + if nodes[n - 1].Text? && Base(nodes, n - 1) == base then 1 else 0
  }

  function Suffix(n: nat): string {
    if n == 0 then "" else ":" + TemplateExpr.NatText(n)
  }

  function KeyAt(nodes: seq<Node>, j: nat): Key
    requires j < |nodes|
  {
    if nodes[j].Text? then Name(Base(nodes, j) + Suffix(Earlier(nodes, j, Base(nodes, j))))
    else if IsSlide(nodes[j]) && nodes[j].slideId.Some? then Name("omid:" + nodes[j].slideId.value)
    else Position(j)
  }

  predicate SlideOk(n: Node) {
    n.Element? && n.slideId.Some? && IsSlideId(n.slideId.value)
  }

  /** The child at `j` makes stable keys impossible. */
  ghost predicate Blocks(nodes: seq<Node>, j: nat) {
    j < |nodes| &&
    match nodes[j]
    case Text(blank) => !blank
    case Other => false
    case Element(tag, id) =>
      !IsAux(tag) &&
      (IsControlFlow(tag) || !SlideOk(nodes[j]) ||
       Taken(nodes, j, id))
  }

  /** A slide among the first `j` children has this id. */
  ghost predicate Taken(nodes: seq<Node>, j: nat, id: Option<string>) {
    exists i :: 0 <= i < j && i < |nodes| && IsSlide(nodes[i]) && nodes[i].slideId == id
  }

  ghost predicate Keyable(nodes: seq<Node>) {
    forall j: nat :: !Blocks(nodes, j)
  }

  // ----- the two loops -----

  method NextSlideIds(nodes: seq<Node>) returns (next: array<Option<string>>)
    ensures fresh(next) && next.Length == |nodes| && forall j | 0 <= j < |nodes| :: next[j] == NextId(nodes, j)
  {
    next := new Option<string>[|nodes|](_ => None);
    var upcoming: Option<string> := None;
    var j := |nodes|;
    while j > 0
      invariant 0 <= j <= |nodes| && upcoming == NextId(nodes, j)
      invariant forall k | j <= k < |nodes| :: next[k] == NextId(nodes, k)
    {
      j := j - 1;
      if nodes[j].Element? {
        upcoming := if IsSlide(nodes[j]) then nodes[j].slideId else None;
      }
      next[j] := upcoming;
    }
  }

  /** What the loop knows after the first `j` children. */
  ghost predicate Walked(nodes: seq<Node>, j: nat, ks: seq<Key>, seen: set<string>, wsSeen: map<string, nat>) {
    j <= |nodes| && |ks| == j && (forall i | 0 <= i < j :: ks[i] == KeyAt(nodes, i) && !Blocks(nodes, i)) &&
    (forall v :: v in seen <==> Taken(nodes, j, Some(v))) &&
    forall b :: Count(wsSeen, b) == Earlier(nodes, j, b)
  }

  function Count(wsSeen: map<string, nat>, base: string): nat {
    if base in wsSeen then wsSeen[base] else 0
  }

  lemma WalkStart(nodes: seq<Node>)
    ensures Walked(nodes, 0, [], {}, map[])
  {
  }

  lemma WalkText(nodes: seq<Node>, j: nat, ks: seq<Key>, seen: set<string>, wsSeen: map<string, nat>)
    requires Walked(nodes, j, ks, seen, wsSeen) && j < |nodes| && nodes[j] == Text(true)
    ensures var base := Base(nodes, j);
            Walked(nodes, j + 1, ks + [Name(base + Suffix(Count(wsSeen, base)))], seen,
              wsSeen[base := Count(wsSeen, base) + 1])
  {
    hide Base, IsAux, IsControlFlow, IsSlideId, NextId, SlideOk;
    forall v ensures Taken(nodes, j + 1, Some(v)) <==> Taken(nodes, j, Some(v)) {}
    var base := Base(nodes, j);
    var wsSeen' := wsSeen[base := Count(wsSeen, base) + 1];
    forall b ensures Count(wsSeen', b) == Earlier(nodes, j + 1, b) {
      assert Count(wsSeen, b) == Earlier(nodes, j, b);
    }
    assert Count(wsSeen, base) == Earlier(nodes, j, base) && !Blocks(nodes, j);
  }

  lemma WalkPosition(nodes: seq<Node>, j: nat, ks: seq<Key>, seen: set<string>, wsSeen: map<string, nat>)
    requires Walked(nodes, j, ks, seen, wsSeen) && j < |nodes|
    requires nodes[j].Other? || (nodes[j].Element? && IsAux(nodes[j].tag))
    ensures Walked(nodes, j + 1, ks + [Position(j)], seen, wsSeen)
  {
  }

  lemma WalkSlide(nodes: seq<Node>, j: nat, ks: seq<Key>, seen: set<string>, wsSeen: map<string, nat>)
    requires Walked(nodes, j, ks, seen, wsSeen) && j < |nodes| && IsSlide(nodes[j]) && SlideOk(nodes[j])
    requires nodes[j].slideId.value !in seen
    ensures var v := nodes[j].slideId.value; Walked(nodes, j + 1, ks + [Name("omid:" + v)], seen + {v}, wsSeen)
  {
  }

  /** Keys exist exactly for keyable children, and are those of `KeyAt`. */
  method WalkDeckChildren(nodes: seq<Node>) returns (keys: Option<seq<Key>>)
    ensures keys.Some? <==> Keyable(nodes)
    ensures keys.Some? ==> |keys.value| == |nodes| && forall j | 0 <= j < |nodes| :: keys.value[j] == KeyAt(nodes, j)
  {
    hide IsSlideId, NextId, TemplateExpr.NatText, IsAux, IsControlFlow, KeyAt, Taken, Earlier, Count;
    var nextSlideId := NextSlideIds(nodes);
    var next := nextSlideId[..];
    var seen: set<string> := {};
    var wsSeen: map<string, nat> := map[];
    var ks: seq<Key> := [];
    WalkStart(nodes);
    for j := 0 to |nodes|
      invariant Walked(nodes, j, ks, seen, wsSeen)
    {
      match nodes[j] {
        case Text(blank) =>
          if !blank {
            assert Blocks(nodes, j);
            return None;
          }
          WalkText(nodes, j, ks, seen, wsSeen);
          var base := if next[j].Some? && next[j].value != "" then "omid-ws:" + next[j].value else "omid-ws:aux";
          var n := Count(wsSeen, base);
          wsSeen := wsSeen[base := n + 1];
          assert base + "" == base;
          ks := ks + [Name(if n == 0 then base else base + (":" + TemplateExpr.NatText(n)))];
        case Other =>
          WalkPosition(nodes, j, ks, seen, wsSeen);
          ks := ks + [Position(j)];
        case Element(tag, id) =>
          if IsAux(tag) {
            WalkPosition(nodes, j, ks, seen, wsSeen);
            ks := ks + [Position(j)];
          } else if IsControlFlow(tag) || id == None || !IsSlideId(id.value) || id.value in seen {
            assert Blocks(nodes, j);
            return None;
          } else {
            WalkSlide(nodes, j, ks, seen, wsSeen);
            seen := seen + {id.value};
            ks := ks + [Name("omid:" + id.value)];
          }
      }
    }
    return Some(ks);
  }

  // ----- the keys are distinct -----

  ghost predicate NoColon(s: string) {
    forall i | 0 <= i < |s| :: s[i] != ':'
  }

  lemma SplitAtColon(t: string, s: string, t': string, s': string)
    requires NoColon(t) && NoColon(t') && t + s == t' + s'
    requires (s != "" ==> s[0] == ':') && (s' != "" ==> s'[0] == ':')
    ensures t == t' && s == s'
  {
    var w := t + s;
    FirstColon(t, s);
    FirstColon(t', s');
    assert |t| == |t'|;
    assert t == w[..|t|] && t' == w[..|t'|] && s == w[|t|..] && s' == w[|t'|..];
  }

  lemma FirstColon(t: string, s: string)
    requires NoColon(t) && (s != "" ==> s[0] == ':')
    ensures forall i | 0 <= i < |t| :: (t + s)[i] != ':'
    ensures |t| < |t + s| ==> (t + s)[|t|] == ':'
  {
  }

  lemma SuffixInjective(m: nat, n: nat)
    requires Suffix(m) == Suffix(n)
    ensures m == n
  {
    TemplateExpr.NatTextReads(m);
    TemplateExpr.NatTextReads(n);
    if m != 0 && n != 0 {
      assert TemplateExpr.NatText(m) == Suffix(m)[1..] == Suffix(n)[1..] == TemplateExpr.NatText(n);
    }
  }

  lemma {:induction false} NextIdIsSlideId(nodes: seq<Node>, j: nat)
    requires Keyable(nodes)
    ensures NextId(nodes, j).Some? ==> IsSlideId(NextId(nodes, j).value)
    decreases |nodes| - j
  {
    if j < |nodes| {
      assert !Blocks(nodes, j);
      if !nodes[j].Element? { NextIdIsSlideId(nodes, j + 1); }
    }
  }

  /** A base is its fixed start and a part without colons. */
  lemma BaseShape(nodes: seq<Node>, j: nat) returns (tail: string)
    requires Keyable(nodes)
    ensures Base(nodes, j) == "omid-ws:" + tail && NoColon(tail)
  {
    NextIdIsSlideId(nodes, j);
    tail := match NextId(nodes, j) case Some(id) => if id != "" then id else "aux" case None => "aux";
  }

  lemma {:induction false} EarlierGrows(nodes: seq<Node>, i: nat, j: nat, base: string)
    requires i < j <= |nodes| && nodes[i].Text? && Base(nodes, i) == base
    ensures Earlier(nodes, i, base) < Earlier(nodes, j, base)
  {
    if i + 1 < j { EarlierGrows(nodes, i, j - 1, base); }
  }

  lemma BlankKeysDiffer(nodes: seq<Node>, i: nat, j: nat)
    requires Keyable(nodes) && i < j < |nodes| && nodes[i].Text? && nodes[j].Text?
    ensures KeyText(KeyAt(nodes, i)) != KeyText(KeyAt(nodes, j))
  {
    var t := BaseShape(nodes, i);
    var t' := BaseShape(nodes, j);
    var b, b' := Base(nodes, i), Base(nodes, j);
    var m, n := Earlier(nodes, i, b), Earlier(nodes, j, b');
    if b + Suffix(m) == b' + Suffix(n) {
      assert (b + Suffix(m))[8..] == t + Suffix(m) && (b' + Suffix(n))[8..] == t' + Suffix(n);
      SplitAtColon(t, Suffix(m), t', Suffix(n));
      SuffixInjective(m, n);
      EarlierGrows(nodes, i, j, b);
    }
  }

  /** The kind of a key shows in its text: `omid:`, `omid-ws:`, or a digit. */
  lemma KeyKind(nodes: seq<Node>, j: nat)
    requires Keyable(nodes) && j < |nodes|
    ensures var s := KeyText(KeyAt(nodes, j));
            if nodes[j].Text? then |s| > 4 && s[0] == 'o' && s[4] == '-'
            else if IsSlide(nodes[j]) then |s| > 4 && s[0] == 'o' && s[4] == ':'
            else s != "" && TemplateExpr.IsDigit(s[0])
  {
    assert !Blocks(nodes, j);
    if nodes[j].Text? {
      var tail := BaseShape(nodes, j);
    } else if !IsSlide(nodes[j]) {
      TemplateExpr.NatTextReads(j);
    }
  }

  /** No two children of a keyable deck get the same key, even after conversion to strings. */
  lemma KeysDistinct(nodes: seq<Node>, i: nat, j: nat)
    requires Keyable(nodes) && i < j < |nodes|
    ensures KeyText(KeyAt(nodes, i)) != KeyText(KeyAt(nodes, j))
  {
    KeyKind(nodes, i);
    KeyKind(nodes, j);
    assert !Blocks(nodes, i) && !Blocks(nodes, j);
    if nodes[i].Text? && nodes[j].Text? {
      BlankKeysDiffer(nodes, i, j);
    } else if IsSlide(nodes[i]) && IsSlide(nodes[j]) {
      var v, w := nodes[i].slideId.value, nodes[j].slideId.value;
      assert v != w;
      assert ("omid:" + v)[5..] == v && ("omid:" + w)[5..] == w;
    } else if !nodes[i].Text? && !IsSlide(nodes[i]) && !nodes[j].Text? && !IsSlide(nodes[j]) {
      TemplateExpr.NatTextReads(i);
      TemplateExpr.NatTextReads(j);
    }
  }

  // ----- when there are keys -----

  ghost predicate HexId(id: Option<string>) {
    id.Some? && |id.value| == 8 && forall i | 0 <= i < 8 :: id.value[i] in "0123456789abcdef"
  }

  lemma HexIsSlideId(n: Node)
    requires n.Element?
    ensures SlideOk(n) <==> HexId(n.slideId)
  {
    if n.slideId.Some? {
      forall c: char ensures ('0' <= c <= '9' || 'a' <= c <= 'f') <==> c in "0123456789abcdef" { HexChar(c); }
    }
  }

  lemma HexChar(c: char)
    ensures ('0' <= c <= '9' || 'a' <= c <= 'f') <==> c in "0123456789abcdef"
  {
    if '0' <= c <= '9' {
      assert "0123456789abcdef"[c as int - '0' as int] == c;
    } else if 'a' <= c <= 'f' {
      assert "0123456789abcdef"[c as int - 'a' as int + 10] == c;
    }
  }

  /** No visible text beside the slides, every element either auxiliary or a slide with an id of eight hexadecimal
      digits, and no id used twice. */
  ghost predicate PlainDeck(nodes: seq<Node>) {
    var aux := {"template", "script", "style", "sc-helmet", "helmet"};
    (forall j | 0 <= j < |nodes| ::
      nodes[j] != Text(false) &&
      (nodes[j].Element? && nodes[j].tag !in aux ==>
        nodes[j].tag !in {"sc-if", "sc-for", "sc-else", "dc-import", "x-import"} && HexId(nodes[j].slideId))) &&
    forall i, j | 0 <= i < j < |nodes| && nodes[i].Element? && nodes[j].Element? &&
                  nodes[i].tag !in aux && nodes[j].tag !in aux :: nodes[i].slideId != nodes[j].slideId
  }

  lemma KeyableIff(nodes: seq<Node>)
    ensures Keyable(nodes) <==> PlainDeck(nodes)
  {
    if Keyable(nodes) { KeyableIsPlain(nodes); }
    if PlainDeck(nodes) { PlainIsKeyable(nodes); }
  }

  lemma KeyableIsPlain(nodes: seq<Node>)
    requires Keyable(nodes)
    ensures PlainDeck(nodes)
  {
    forall j | 0 <= j < |nodes|
      ensures !Blocks(nodes, j) && (nodes[j].Element? ==> SlideOk(nodes[j]) == HexId(nodes[j].slideId))
    {
      if nodes[j].Element? { HexIsSlideId(nodes[j]); }
    }
    hide HexId, SlideOk;
    forall i, j | 0 <= i < j < |nodes| && IsSlide(nodes[i]) && IsSlide(nodes[j])
      ensures nodes[i].slideId != nodes[j].slideId
    {
      assert !Taken(nodes, j, nodes[j].slideId);
    }
  }

  lemma PlainIsKeyable(nodes: seq<Node>)
    requires PlainDeck(nodes)
    ensures Keyable(nodes)
  {
    forall j: nat ensures !Blocks(nodes, j) {
      if j < |nodes| && nodes[j].Element? { HexIsSlideId(nodes[j]); }
    }
  }

  // ----- the keys are stable -----

  /** Every text among these children is followed by an element among them. */
  predicate Closed(pre: seq<Node>) {
    pre == [] || pre[|pre| - 1].Element?
  }

  lemma {:induction false} NextIdInFront(pre: seq<Node>, rest: seq<Node>, j: nat)
    requires Closed(pre) && j < |pre|
    ensures NextId(pre + rest, j) == NextId(pre, j)
    decreases |pre| - j
  {
    if !pre[j].Element? { NextIdInFront(pre, rest, j + 1); }
  }

  lemma {:induction false} NextIdBehind(front: seq<Node>, post: seq<Node>, j: nat)
    requires j <= |post|
    ensures NextId(front + post, |front| + j) == NextId(post, j)
    decreases |post| - j
  {
    if j < |post| && !post[j].Element? { NextIdBehind(front, post, j + 1); }
  }

  lemma {:induction false} EarlierInFront(pre: seq<Node>, rest: seq<Node>, n: nat, base: string)
    requires Closed(pre) && n <= |pre|
    ensures Earlier(pre + rest, n, base) == Earlier(pre, n, base)
  {
    hide NextId;
    if n > 0 {
      NextIdInFront(pre, rest, n - 1);
      EarlierInFront(pre, rest, n - 1, base);
    }
  }

  /** Children without text of this base do not move the count. */
  lemma {:induction false} EarlierSkips(nodes: seq<Node>, m: nat, n: nat, base: string)
    requires m <= n <= |nodes| && forall i | m <= i < n && nodes[i].Text? :: Base(nodes, i) != base
    ensures Earlier(nodes, n, base) == Earlier(nodes, m, base)
  {
    if m < n { EarlierSkips(nodes, m, n - 1, base); }
  }

  lemma {:induction false} EarlierBehind(front: seq<Node>, front': seq<Node>, post: seq<Node>, n: nat, base: string)
    requires n <= |post| && Earlier(front + post, |front|, base) == Earlier(front' + post, |front'|, base)
    ensures Earlier(front + post, |front| + n, base) == Earlier(front' + post, |front'| + n, base)
  {
    hide NextId;
    if n > 0 {
      NextIdBehind(front, post, n - 1);
      NextIdBehind(front', post, n - 1);
      assert (front + post)[|front| + n - 1] == post[n - 1] == (front' + post)[|front'| + n - 1];
      EarlierBehind(front, front', post, n - 1, base);
    }
  }

  /** One slide, with white space and comments before it. */
  predicate SlideBlock(block: seq<Node>) {
    block != [] && IsSlide(block[|block| - 1]) && forall i | 0 <= i < |block| - 1 :: !block[i].Element?
  }

  lemma {:induction false} NextIdInBlock(front: seq<Node>, block: seq<Node>, post: seq<Node>, j: nat)
    requires SlideBlock(block) && j < |block|
    ensures NextId(front + block + post, |front| + j) == block[|block| - 1].slideId
    decreases |block| - j
  {
    if j + 1 < |block| { NextIdInBlock(front, block, post, j + 1); }
  }

  lemma {:induction false} NextIdHasSlide(nodes: seq<Node>, j: nat) returns (k: nat)
    requires NextId(nodes, j).Some?
    ensures j <= k < |nodes| && IsSlide(nodes[k]) && nodes[k].slideId == NextId(nodes, j)
    decreases |nodes| - j
  {
    if nodes[j].Element? { k := j; } else { k := NextIdHasSlide(nodes, j + 1); }
  }

  /** White space after a slide does not belong to it. */
  lemma BaseAfterDiffers(nodes: seq<Node>, k: nat, j: nat)
    requires Keyable(nodes) && k < j < |nodes| && IsSlide(nodes[k])
    ensures nodes[k].slideId.Some? && Base(nodes, j) != "omid-ws:" + nodes[k].slideId.value
  {
    assert !Blocks(nodes, k);
    var id := nodes[k].slideId.value;
    NextIdIsSlideId(nodes, j);
    assert ("omid-ws:" + id)[8..] == id && ("omid-ws:aux")[8..] == "aux";
    if NextId(nodes, j).Some? {
      var v := NextId(nodes, j).value;
      var q := NextIdHasSlide(nodes, j);
      assert !Blocks(nodes, q);
      assert ("omid-ws:" + v)[8..] == v;
    }
  }

  /** What the keys are for: inserting or removing one slide, with the white space before it, leaves the keys of all
      other slides and of all other white space as they were. */
  lemma KeysAreStable(pre: seq<Node>, block: seq<Node>, post: seq<Node>)
    requires Closed(pre) && SlideBlock(block) && Keyable(pre + block + post)
    ensures Keyable(pre + post)
    ensures forall j | 0 <= j < |pre| :: KeyAt(pre + block + post, j) == KeyAt(pre + post, j)
    ensures forall j | 0 <= j < |post| && (post[j].Text? || IsSlide(post[j])) ::
              KeyAt(pre + block + post, |pre| + |block| + j) == KeyAt(pre + post, |pre| + j)
  {
    hide IsSlide, Keyable, NextId, Base, Earlier;
    StillKeyable(pre, block, post);
    forall j | 0 <= j < |pre| ensures KeyAt(pre + block + post, j) == KeyAt(pre + post, j) {
      KeyInFront(pre, block + post, post, j);
      assert pre + block + post == pre + (block + post);
    }
    forall j | 0 <= j < |post| && (post[j].Text? || IsSlide(post[j]))
      ensures KeyAt(pre + block + post, |pre| + |block| + j) == KeyAt(pre + post, |pre| + j)
    {
      KeyBehind(pre, block, post, j);
    }
  }

  lemma KeyInFront(pre: seq<Node>, rest: seq<Node>, rest': seq<Node>, j: nat)
    requires Closed(pre) && j < |pre|
    ensures KeyAt(pre + rest, j) == KeyAt(pre + rest', j)
  {
    NextIdInFront(pre, rest, j);
    NextIdInFront(pre, rest', j);
    EarlierInFront(pre, rest, j, Base(pre, j));
    EarlierInFront(pre, rest', j, Base(pre, j));
  }

  lemma StillKeyable(pre: seq<Node>, block: seq<Node>, post: seq<Node>)
    requires Keyable(pre + block + post)
    ensures Keyable(pre + post)
  {
    KeyableIff(pre + block + post);
    KeyableIff(pre + post);
    var nodes, fewer := pre + block + post, pre + post;
    forall j | 0 <= j < |fewer| ensures fewer[j] == nodes[if j < |pre| then j else j + |block|] {}
    hide HexId;
  }

  lemma BaseBehind(pre: seq<Node>, block: seq<Node>, post: seq<Node>, j: nat)
    requires SlideBlock(block) && Keyable(pre + block + post) && j < |post|
    ensures var nodes := pre + block + post;
            Base(nodes, |pre| + |block| + j) == Base(pre + post, |pre| + j) &&
            forall i | |pre| <= i < |pre| + |block| && nodes[i].Text? :: Base(nodes, i) != Base(pre + post, |pre| + j)
  {
    var nodes, k := pre + block + post, |pre| + |block|;
    NextIdBehind(pre + block, post, j);
    NextIdBehind(pre, post, j);
    hide NextId, SlideOk;
    assert IsSlide(nodes[k - 1]) && nodes[k - 1] == block[|block| - 1];
    BaseAfterDiffers(nodes, k - 1, k + j);
    assert nodes[k - 1].slideId.value != "" by { SlideHasId(nodes, k - 1); }
    forall i | |pre| <= i < k && nodes[i].Text? ensures NextId(nodes, i) == nodes[k - 1].slideId {
      NextIdInBlock(pre, block, post, i - |pre|);
    }
    hide Keyable, Blocks, SlideBlock, IsSlide;
  }

  lemma KeyBehind(pre: seq<Node>, block: seq<Node>, post: seq<Node>, j: nat)
    requires Closed(pre) && SlideBlock(block) && Keyable(pre + block + post)
    requires j < |post| && (post[j].Text? || IsSlide(post[j]))
    ensures KeyAt(pre + block + post, |pre| + |block| + j) == KeyAt(pre + post, |pre| + j)
  {
    hide Base, Earlier, Closed, SlideBlock, IsSlide;
    var nodes, k := pre + block + post, |pre| + |block|;
    assert nodes[k + j] == post[j] && (pre + post)[|pre| + j] == post[j];
    if post[j].Text? {
      var base := Base(nodes, k + j);
      BaseBehind(pre, block, post, j);
      EarlierSkips(nodes, |pre|, k, base);
      EarlierInFront(pre, post, |pre|, base);
      EarlierInFront(pre, block + post, |pre|, base);
      assert nodes == pre + (block + post);
      EarlierBehind(pre + block, pre, post, j, base);
    } else {
      SlideHasId(nodes, k + j);
    }
  }

  lemma SlideHasId(nodes: seq<Node>, j: nat)
    requires Keyable(nodes) && j < |nodes| && IsSlide(nodes[j])
    ensures nodes[j].slideId.Some? && nodes[j].slideId.value != ""
  {
    assert !Blocks(nodes, j);
  }
}

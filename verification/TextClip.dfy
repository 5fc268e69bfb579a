/**
 One-line excerpts: `snippet` of backend/app/shared/message_snippets.py, `_clip` of link_preview.py with
 its two passes, and `summary_of` of employer_publishing.py. A character is a Unicode code point.
 */
module TextClip {
  import opened Prelude

  // ----- Python's strings -----

  /** `str.isspace` of one character; `\s`, `strip()` and `split()` all use it. */
  predicate IsSpace(c: char) {
    '\t' <= c <= '\r' || '\U{1c}' <= c <= ' ' || c == '\U{85}' || c == '\U{a0}' || c == '\U{1680}' ||
    '\U{2000}' <= c <= '\U{200a}' || '\U{2028}' <= c <= '\U{2029}' || c == '\U{202f}' || c == '\U{205f}' ||
    c == '\U{3000}'
  }

  const ELLIPSIS := "\U{2026}"

  function Upto(s: string, n: int): string {
    if n >= |s| then s else if n >= 0 then s[..n] else if |s| + n >= 0 then s[..|s| + n] else ""
  }

  /** `rstrip` of the characters that `drop` selects. */
  function RStrip(s: string, drop: char -> bool): (r: string)
    ensures |r| <= |s| && r == s[..|r|] && (r != "" ==> !drop(r[|r| - 1]))
    ensures forall i | |r| <= i < |s| :: drop(s[i])
  {
    if s != "" && drop(s[|s| - 1]) then RStrip(s[..|s| - 1], drop) else s
  }

  function LStrip(s: string): (r: string)
    ensures |r| <= |s| && r == s[|s| - |r|..] && (r != "" ==> !IsSpace(r[0]))
  {
    if s != "" && IsSpace(s[0]) then LStrip(s[1..]) else s
  }

  function Strip(s: string): string {
    RStrip(LStrip(s), IsSpace)
  }

  /** `re.sub(r'\s+', ' ', s)`. */
  function Collapse(s: string): string
    decreases |s|
  {
    if s == "" then "" else if IsSpace(s[0]) then " " + Collapse(LStrip(s)) else [s[0]] + Collapse(s[1..])
  }

  function Clean(s: string): string {
    Strip(Collapse(s))
  }

  /** `s.split()`: the maximal runs of other characters. */
  function Split(s: string): (words: seq<string>)
    ensures s != "" && !IsSpace(s[0]) ==> words != []
  {
    if s == "" then []
    else if IsSpace(s[0]) then Split(s[1..])
    else if |s| == 1 || IsSpace(s[1]) then [[s[0]]] + Split(s[1..])
    else [[s[0]] + Split(s[1..])[0]] + Split(s[1..])[1..]
  }

  /** `' '.join(words)`. */
  function Join(words: seq<string>): string {
    if words == [] then "" else if |words| == 1 then words[0] else words[0] + " " + Join(words[1..])
  }

  /** `rfind(' ')`. */
  function LastBlank(s: string): (k: int)
    ensures -1 <= k < |s| && (k >= 0 ==> s[k] == ' ')
    ensures forall j | k < j < |s| :: s[j] != ' '
  {
    if s == "" then -1 else if s[|s| - 1] == ' ' then |s| - 1 else LastBlank(s[..|s| - 1])
  }

  // ----- the three functions -----

  predicate SnippetTail(c: char) { c == ' ' || c == ',' || c == '.' || c == ';' || c == ':' }

  function SnippetText(text: string, limit: int): string {
    if |text| <= limit then text
    else
      var cut := RStrip(Upto(text, limit), IsSpace);
      var space := LastBlank(cut);
      RStrip(if space >= limit / 2 then Upto(cut, space) else cut, SnippetTail) + ELLIPSIS
  }

  function Snippet(body: Option<string>, deleted: bool, limit: int): string {
    if deleted || body == None || body.value == "" then "" else SnippetText(Clean(body.value), limit)
  }

  function ClipText(text: string, limit: int): string {
    if |text| <= limit then text else RStrip(Upto(text, limit - 1), IsSpace) + ELLIPSIS
  }

  function Clip(value: Option<string>, limit: int): Option<string> {
    if value == None || Clean(value.value) == "" then None else Some(ClipText(Clean(value.value), limit))
  }

  const SUMMARY_LIMIT := 400

  predicate SummaryTail(c: char) { c == ' ' || c == ',' || c == ';' || c == ':' || c == '.' || c == '-' }

  function SummaryText(text: string): string {
    if |text| <= SUMMARY_LIMIT then text
    else
      var cut := text[..SUMMARY_LIMIT - 1];
      RStrip(if ' ' in cut then cut[..LastBlank(cut)] else cut, SummaryTail) + ELLIPSIS
  }

  function SummaryOf(description: Option<string>): string {
    SummaryText(Join(Split(match description case Some(d) => d case None => "")))
  }

  // ----- normal form -----

  lemma Characters()
    ensures IsSpace(' ') && ELLIPSIS == "\U{2026}" && !IsSpace(ELLIPSIS[0]) && SnippetTail(' ') && SummaryTail(' ')
  {
  }

  /** Blanks only, single, and none at either end. */
  ghost predicate Normal(t: string) {
    Inner(t) && (t != "" ==> !IsSpace(t[0]) && !IsSpace(t[|t| - 1]))
  }

  ghost predicate Inner(t: string) {
    forall i | 0 <= i < |t| && IsSpace(t[i]) :: t[i] == ' ' && (i + 1 < |t| ==> !IsSpace(t[i + 1]))
  }

  lemma PrependInner(c: char, t: string)
    requires Inner(t) && (IsSpace(c) ==> c == ' ' && (t != "" ==> !IsSpace(t[0])))
    ensures Inner([c] + t)
  {
    hide IsSpace;
    var u := [c] + t;
    forall i | 0 <= i < |u| && IsSpace(u[i]) ensures u[i] == ' ' && (i + 1 < |u| ==> !IsSpace(u[i + 1])) {
      if i > 0 { assert u[i] == t[i - 1]; }
    }
  }

  lemma {:induction false} CollapseIsInner(s: string)
    ensures Inner(Collapse(s)) && (s == "" <==> Collapse(s) == "")
    ensures s != "" ==> IsSpace(Collapse(s)[0]) == IsSpace(s[0])
    decreases |s|
  {
    Characters();
    if s != "" {
      var rest := if IsSpace(s[0]) then LStrip(s) else s[1..];
      CollapseIsInner(rest);
      hide IsSpace, Inner;
      PrependInner(if IsSpace(s[0]) then ' ' else s[0], Collapse(rest));
    }
  }

  lemma SliceIsInner(t: string, i: nat, j: nat)
    requires Inner(t) && i <= j <= |t|
    ensures Inner(t[i..j])
  {
    hide IsSpace;
    var u := t[i..j];
    forall k | 0 <= k < |u| && IsSpace(u[k]) ensures u[k] == ' ' && (k + 1 < |u| ==> !IsSpace(u[k + 1])) {
      assert u[k] == t[i + k];
    }
  }

  lemma CleanOfEmpty()
    ensures Clean("") == "" && Normal("")
  {
  }

  lemma CleanIsNormal(s: string)
    ensures Normal(Clean(s))
  {
    hide IsSpace, Inner, Collapse, RStrip, LStrip;
    CollapseIsInner(s);
    var c := Collapse(s);
    var l := LStrip(c);
    SliceIsInner(c, |c| - |l|, |c|);
    assert c[|c| - |l|..|c|] == l;
    SliceIsInner(l, 0, |RStrip(l, IsSpace)|);
  }

  lemma InnerTail(t: string)
    requires Inner(t) && t != ""
    ensures Inner(t[1..]) && (IsSpace(t[0]) ==> t[0] == ' ' && (|t| > 1 ==> !IsSpace(t[1])))
  {
    SliceIsInner(t, 1, |t|);
    assert t[1..|t|] == t[1..];
  }

  lemma {:induction false} InnerCollapses(t: string)
    requires Inner(t)
    ensures Collapse(t) == t
  {
    if t != "" {
      InnerTail(t);
      hide Inner, IsSpace;
      InnerCollapses(t[1..]);
      if IsSpace(t[0]) {
        assert LStrip(t[1..]) == t[1..];
        assert LStrip(t) == LStrip(t[1..]);
      }
    }
  }

  /** Text in normal form is exactly the text that cleaning leaves alone. */
  lemma CleanIsIdentityIff(t: string)
    ensures Clean(t) == t <==> Normal(t)
  {
    hide IsSpace;
    CleanIsNormal(t);
    if Normal(t) {
      InnerCollapses(t);
    }
  }

  lemma {:induction false} SplitSkipsBlanks(s: string)
    ensures Split(LStrip(s)) == Split(s)
  {
    if s != "" && IsSpace(s[0]) {
      SplitSkipsBlanks(s[1..]);
    }
  }

  lemma {:induction false} SplitOfCollapse(s: string)
    ensures Split(Collapse(s)) == Split(s)
    decreases |s|
  {
    if s != "" {
      if IsSpace(s[0]) {
        SplitOfCollapse(LStrip(s));
        SplitSkipsBlanks(s);
        assert Collapse(s)[1..] == Collapse(LStrip(s));
      } else {
        SplitOfCollapse(s[1..]);
        assert Collapse(s)[1..] == Collapse(s[1..]);
        CollapseIsInner(s[1..]);
      }
    }
  }

  lemma {:induction false} SplitDropsLast(s: string)
    requires s != "" && IsSpace(s[|s| - 1])
    ensures Split(s[..|s| - 1]) == Split(s)
  {
    var t := s[..|s| - 1];
    if |s| == 1 {
      assert Split(s[1..]) == [];
    } else {
      SplitDropsLast(s[1..]);
      assert s[1..][..|s| - 2] == t[1..];
      hide IsSpace;
    }
  }

  lemma {:induction false} SplitOfRStrip(s: string)
    ensures Split(RStrip(s, IsSpace)) == Split(s)
  {
    if s != "" && IsSpace(s[|s| - 1]) {
      SplitDropsLast(s);
      SplitOfRStrip(s[..|s| - 1]);
    }
  }

  lemma SplitPrepend(c: char, u: string)
    requires !IsSpace(c)
    ensures Split([c] + u) == if u == "" || IsSpace(u[0]) then [[c]] + Split(u) else [[c] + Split(u)[0]] + Split(u)[1..]
  {
    hide IsSpace;
    assert ([c] + u)[1..] == u;
  }

  lemma Assoc(a: string, b: string, c: string)
    ensures (a + b) + c == a + (b + c)
  {
  }

  lemma JoinNewWord(c: char, words: seq<string>)
    requires words != []
    ensures Join([[c]] + words) == [c] + ([' '] + Join(words))
  {
    var w := [[c]] + words;
    assert w[1..] == words && w[0] == [c];
    Assoc([c], " ", Join(words));
  }

  lemma JoinSameWord(c: char, words: seq<string>)
    requires words != []
    ensures Join([[c] + words[0]] + words[1..]) == [c] + Join(words)
  {
    var w := [[c] + words[0]] + words[1..];
    assert w[1..] == words[1..] && w[0] == [c] + words[0];
    if |words| > 1 {
      Assoc([c], words[0], " ");
      Assoc([c], words[0] + " ", Join(words[1..]));
    }
  }

  lemma {:induction false} JoinOfNormal(t: string)
    requires Inner(t) && (t != "" ==> !IsSpace(t[0]) && !IsSpace(t[|t| - 1]))
    ensures Join(Split(t)) == t
  {
    if |t| > 1 {
      var u := t[1..];
      InnerTail(t);
      InnerTail(u);
      assert t == [t[0]] + u && u == [u[0]] + u[1..];
      SplitPrepend(t[0], u);
      hide IsSpace, Inner, Join;
      if IsSpace(u[0]) {
        JoinOfNormal(u[1..]);
        JoinNewWord(t[0], Split(u[1..]));
      } else {
        JoinOfNormal(u);
        JoinSameWord(t[0], Split(u));
      }
    }
  }

  /** Cleaning changes no word, and the regular expression of `snippet` and `_clip` does what the
      split and join of `summary_of` does. */
  lemma CleanIsJoinSplit(s: string)
    ensures Split(Clean(s)) == Split(s) && Clean(s) == Join(Split(s))
  {
    SplitOfCollapse(s);
    SplitSkipsBlanks(Collapse(s));
    SplitOfRStrip(LStrip(Collapse(s)));
    CleanIsNormal(s);
    hide IsSpace, Inner, Split, Join, Collapse, RStrip, LStrip;
    JoinOfNormal(Clean(s));
  }

  /** The characters that cleaning takes for blanks. */
  lemma BlankCharacters(c: char)
    ensures Clean([c]) == "" <==>
              c as int in {0x09, 0x0a, 0x0b, 0x0c, 0x0d, 0x1c, 0x1d, 0x1e, 0x1f, 0x20, 0x85, 0xa0, 0x1680, 0x2000,
                           0x2001, 0x2002, 0x2003, 0x2004, 0x2005, 0x2006, 0x2007, 0x2008, 0x2009, 0x200a, 0x2028,
                           0x2029, 0x202f, 0x205f, 0x3000}
  {
    CleanOfCharacter(c);
  }

  lemma CleanOfCharacter(c: char)
    ensures Clean([c]) == "" <==> IsSpace(c)
  {
    Characters();
    CollapseIsInner([c]);
    CleanIsNormal([c]);
    CleanIsJoinSplit([c]);
    hide Clean, Collapse, IsSpace, Inner, Join;
    assert Split("") == [];
    if IsSpace(c) { assert Split([c]) == []; } else { assert Split([c]) == [[c]] + []; }
    JoinFirst([c]);
  }

  lemma JoinFirst(w: string)
    ensures Join([]) == "" && Join([w]) == w
  {
  }

  // ----- cutting -----

  /** `t` is the first `k` characters of a longer text, not ending in a blank, and an ellipsis. */
  ghost predicate CutOf(text: string, t: string, k: nat) {
    k < |text| && t == text[..k] + "\U{2026}" && (k > 0 ==> !IsSpace(text[k - 1]))
  }

  lemma CutIsNormal(text: string, t: string, k: nat)
    requires Normal(text) && CutOf(text, t, k)
    ensures Normal(t) && |t| == k + 1 && t[..k] == text[..k]
  {
    hide IsSpace;
    Characters();
    forall i | 0 <= i < |t| && IsSpace(t[i]) ensures t[i] == ' ' && (i + 1 < |t| ==> !IsSpace(t[i + 1])) {
      assert i < k && t[i] == text[i];
    }
  }

  ghost predicate ClipCut(text: string, limit: int, t: string, k: nat) {
    k < limit <= |text| && CutOf(text, t, k) && forall i | k <= i < limit - 1 :: IsSpace(text[i])
  }

  lemma ClipCuts(text: string, limit: int) returns (k: nat)
    requires Normal(text) && |text| > limit >= 1
    ensures ClipCut(text, limit, ClipText(text, limit), k)
    ensures Normal(ClipText(text, limit)) && 0 < |ClipText(text, limit)| == k + 1 <= limit
    ensures ClipText(text, limit)[..k] == text[..k]
  {
    hide Normal, IsSpace;
    var cut := text[..limit - 1];
    k := |RStrip(cut, IsSpace)|;
    assert forall i | k <= i < limit - 1 :: text[i] == cut[i];
    assert k > 0 ==> text[k - 1] == cut[k - 1];
    CutIsNormal(text, ClipText(text, limit), k);
  }

  /** What `_clip` returns: nothing for blank text, the cleaned text when it fits, and otherwise the
      longest prefix that leaves room for the ellipsis and does not end in a blank. */
  lemma ClipIsPrefix(value: Option<string>, limit: int)
    requires limit >= 1
    ensures Clip(value, limit) == None <==> value == None || Clean(value.value) == ""
    ensures Clip(value, limit).Some? ==>
              var t, text := Clip(value, limit).value, Clean(value.value);
              0 < |t| <= limit && Normal(t) &&
              if |text| <= limit then t == text else exists k: nat :: ClipCut(text, limit, t, k)
  {
    if value.Some? {
      CleanIsNormal(value.value);
      hide Clean, Normal, ClipCut;
      if |Clean(value.value)| > limit {
        var k := ClipCuts(Clean(value.value), limit);
      }
    }
  }

  /** Whatever `rstrip` leaves is determined by where the dropped characters start. */
  lemma RStripUnique(s: string, k: nat)
    requires k <= |s| && (k > 0 ==> !IsSpace(s[k - 1])) && forall i | k <= i < |s| :: IsSpace(s[i])
    ensures RStrip(s, IsSpace) == s[..k]
  {
    hide IsSpace;
    var r := RStrip(s, IsSpace);
    assert forall i | 0 <= i < |r| :: r[i] == s[i];
  }

  /** The first clip left room already: the second one finds the same cut. */
  lemma SameCut(text: string, t: string, a: int, b: int, k: nat)
    requires ClipCut(text, a, t, k) && |t| <= b && 1 <= b <= a < |text|
    ensures ClipText(text, b) == t
  {
    hide IsSpace;
    var cut := text[..b - 1];
    assert k > 0 ==> cut[k - 1] == text[k - 1];
    assert forall i | k <= i < |cut| :: cut[i] == text[i];
    RStripUnique(cut, k);
    hide RStrip;
    assert cut[..k] == text[..k];
  }

  lemma PrefixOfPrefix(t: string, text: string, k: nat, n: nat)
    requires n <= k <= |t| && k <= |text| && t[..k] == text[..k]
    ensures t[..n] == text[..n]
  {
    assert t[..n] == t[..k][..n];
  }

  lemma ClipTextOf(text: string, b: int)
    requires b >= 1
    ensures ClipText(text, b) == if |text| <= b then text else RStrip(text[..b - 1], IsSpace) + ELLIPSIS
  {
  }

  lemma ClipTextTwice(text: string, a: int, b: int)
    requires Normal(text) && 1 <= b <= a
    ensures ClipText(ClipText(text, a), b) == ClipText(text, b)
  {
    var t := ClipText(text, a);
    hide Normal, ClipText, RStrip, ClipCut;
    ClipTextOf(text, a);
    ClipTextOf(t, b);
    ClipTextOf(text, b);
    if |text| > a {
      var k := ClipCuts(text, a);
      if |t| <= b {
        SameCut(text, t, a, b, k);
      } else {
        PrefixOfPrefix(t, text, k, b - 1);
      }
    }
  }

  /** Clipping twice is clipping once to the shorter limit; in particular, clipping is idempotent. */
  lemma ClipTwice(value: Option<string>, a: int, b: int)
    requires 1 <= b <= a
    ensures Clip(Clip(value, a), b) == Clip(value, b)
  {
    ClipIsPrefix(value, a);
    if value.Some? && Clean(value.value) != "" {
      CleanIsNormal(value.value);
      CleanIsIdentityIff(Clip(value, a).value);
      hide Clean, Normal, ClipText;
      ClipTextTwice(Clean(value.value), a, b);
    }
  }

  // ----- the two passes of a link preview -----

  const MAX_TITLE_LEN := 200
  const MAX_DESCRIPTION_LEN := 300
  const MAX_IMAGE_URL_LEN := 2000

  datatype Fields = Fields(siteName: Option<string>, title: Option<string>,
                           description: Option<string>, imageUrl: Option<string>)

  function Clipped(f: Fields): Fields {
    Fields(Clip(f.siteName, MAX_TITLE_LEN), Clip(f.title, MAX_TITLE_LEN),
           Clip(f.description, MAX_DESCRIPTION_LEN), Clip(f.imageUrl, MAX_IMAGE_URL_LEN))
  }

  /** Python's truth of an optional string. */
  predicate Truthy(s: Option<string>) {
    s.Some? && s.value != ""
  }

  /** `fetch_link_preview` on the fields found in the page; none is the failed preview. */
  function Fetched(found: Fields): Option<Fields> {
    var meta := Clipped(found);
    if !Truthy(meta.title) && !Truthy(meta.siteName) && !Truthy(meta.imageUrl) && !Truthy(meta.description) then None
    else Some(Clipped(meta))
  }

  predicate Blank(s: Option<string>) {
    s == None || Clean(s.value) == ""
  }

  lemma ClipOnce(value: Option<string>, limit: int)
    requires limit >= 1
    ensures Clip(Clip(value, limit), limit) == Clip(value, limit)
    ensures Truthy(Clip(value, limit)) <==> !Blank(value)
  {
    ClipTwice(value, limit, limit);
    ClipIsPrefix(value, limit);
    hide Clip, Clean, Normal;
  }

  /** The second pass changes nothing, and a preview fails exactly when every field is blank. */
  lemma SecondClipIsNoOp(found: Fields)
    ensures Clipped(Clipped(found)) == Clipped(found)
    ensures Fetched(found) ==
              if Blank(found.siteName) && Blank(found.title) && Blank(found.description) && Blank(found.imageUrl)
              then None
              else Some(Fields(Clip(found.siteName, 200), Clip(found.title, 200),
                               Clip(found.description, 300), Clip(found.imageUrl, 2000)))
  {
    hide Clip, Blank, Truthy;
    ClipOnce(found.siteName, MAX_TITLE_LEN);
    ClipOnce(found.title, MAX_TITLE_LEN);
    ClipOnce(found.description, MAX_DESCRIPTION_LEN);
    ClipOnce(found.imageUrl, MAX_IMAGE_URL_LEN);
  }

  // ----- snippet -----

  /** The end of the first `limit` characters, a last blank left out. */
  function Room(text: string, limit: nat): nat
    requires limit < |text|
  {
    if limit > 0 && text[limit - 1] == ' ' then limit - 1 else limit
  }

  /** The last blank before `c` if it is in the second half of the limit, and otherwise `c`. */
  ghost predicate CutAt(text: string, limit: nat, c: nat, e: nat)
    requires c <= limit < |text|
  {
    (e == c && forall i | limit / 2 <= i < c :: text[i] != ' ') ||
    (limit / 2 <= e < c && text[e] == ' ' && forall i | e < i < c :: text[i] != ' ')
  }

  /** `t` keeps `k` characters; `e` is where the text was cut before punctuation was dropped. */
  ghost predicate SnippetCut(text: string, limit: nat, t: string, k: nat, e: nat) {
    k <= e <= limit < |text| && CutAt(text, limit, Room(text, limit), e) && CutOf(text, t, k) &&
    (forall i | k <= i < e :: text[i] in {' ', ',', '.', ';', ':'}) &&
    (k > 0 ==> text[k - 1] !in {' ', ',', '.', ';', ':'})
  }

  lemma BlanksAtEnd(text: string, limit: nat)
    requires Normal(text) && |text| > limit
    ensures var c := |RStrip(text[..limit], IsSpace)|; limit / 2 <= c <= limit && c == Room(text, limit)
  {
    Characters();
    hide IsSpace;
    var cut := text[..limit];
    var c := |RStrip(cut, IsSpace)|;
    forall i | c <= i < limit ensures IsSpace(text[i]) { assert cut[i] == text[i]; }
    assert c < limit ==> IsSpace(text[c]) && text[c] == ' ' && !IsSpace(text[c + 1]);
    assert c > 0 ==> cut[c - 1] == text[c - 1] && text[c - 1] != ' ';
  }

  /** Dropping trailing punctuation from a prefix leaves a cut. */
  lemma TailCut(text: string, e: nat, tail: char -> bool) returns (k: nat)
    requires Normal(text) && e < |text| && tail(' ')
    ensures k <= e && (forall i | k <= i < e :: tail(text[i])) && (k > 0 ==> !tail(text[k - 1]))
    ensures CutOf(text, RStrip(text[..e], tail) + ELLIPSIS, k)
  {
    hide IsSpace;
    var kept := text[..e];
    k := |RStrip(kept, tail)|;
    assert k > 0 ==> kept[k - 1] == text[k - 1] && text[k - 1] != ' ';
    forall i | k <= i < e ensures tail(text[i]) { assert kept[i] == text[i]; }
    assert kept[..k] == text[..k];
  }

  lemma SnippetTextOf(text: string, limit: nat)
    requires |text| > limit
    ensures var cut := RStrip(text[..limit], IsSpace);
            var space := LastBlank(cut);
            SnippetText(text, limit) == RStrip(if space >= limit / 2 then cut[..space] else cut, SnippetTail) + ELLIPSIS
  {
    hide RStrip, LastBlank;
  }

  /** Where the text is cut before punctuation is dropped. */
  lemma SnippetEnd(text: string, limit: nat) returns (e: nat)
    requires Normal(text) && |text| > limit
    ensures e <= limit && SnippetText(text, limit) == RStrip(text[..e], SnippetTail) + ELLIPSIS
    ensures CutAt(text, limit, Room(text, limit), e)
    ensures e == limit ==> RStrip(text[..limit], IsSpace) == text[..limit] && LastBlank(text[..limit]) < limit / 2
  {
    BlanksAtEnd(text, limit);
    SnippetTextOf(text, limit);
    hide *;
    var cut := RStrip(text[..limit], IsSpace);
    assert cut == text[..|cut|];
    var space := LastBlank(cut);
    e := if space >= limit / 2 then space else |cut|;
    assert cut[..e] == text[..e];
    assert space >= limit / 2 ==> cut[..space] == text[..e];
    assert space < limit / 2 ==> cut == text[..e];
    CutAtLastBlank(text, limit, |cut|);
  }

  lemma CutAtLastBlank(text: string, limit: nat, c: nat)
    requires limit / 2 <= c <= limit < |text|
    ensures var space := LastBlank(text[..c]); CutAt(text, limit, c, if space >= limit / 2 then space else c)
  {
    var cut := text[..c];
    assert forall i | 0 <= i < c :: cut[i] == text[i];
    assert LastBlank(cut) < |cut|;
    hide LastBlank;
  }

  lemma TailCharacters()
    ensures forall c: char :: SnippetTail(c) <==> c in {' ', ',', '.', ';', ':'}
    ensures forall c: char :: SummaryTail(c) <==> c in {' ', ',', ';', ':', '.', '-'}
  {
  }

  lemma SnippetCuts(text: string, limit: nat) returns (k: nat, e: nat)
    requires Normal(text) && |text| > limit
    ensures SnippetCut(text, limit, SnippetText(text, limit), k, e)
    ensures Normal(SnippetText(text, limit)) && |SnippetText(text, limit)| == k + 1 <= limit + 1 && k <= e <= limit
    ensures e == limit ==> RStrip(text[..limit], IsSpace) == text[..limit] && LastBlank(text[..limit]) < limit / 2
  {
    Characters();
    TailCharacters();
    hide IsSpace, SnippetTail, Normal, RStrip, LastBlank, SnippetText;
    e := SnippetEnd(text, limit);
    k := TailCut(text, e, SnippetTail);
    CutIsNormal(text, SnippetText(text, limit), k);
  }

  ghost predicate SnippetOf(text: string, limit: nat, t: string) {
    Normal(t) && |t| <= limit + 1 &&
    if |text| <= limit then t == text else exists k: nat, e: nat :: SnippetCut(text, limit, t, k, e)
  }

  lemma SnippetTextIsPrefix(text: string, limit: nat)
    requires Normal(text)
    ensures SnippetOf(text, limit, SnippetText(text, limit))
  {
    hide Normal, SnippetCut, RStrip;
    if |text| > limit {
      hide SnippetText;
      var k, e := SnippetCuts(text, limit);
    }
  }

  /** Nothing of a deleted message is shown; text that fits is shown cleaned; longer text is cut at
      a blank when the second half of the limit has one, and loses only trailing punctuation more. */
  lemma SnippetIsPrefix(body: Option<string>, deleted: bool, limit: nat)
    ensures if deleted || body == None then Snippet(body, deleted, limit) == ""
            else SnippetOf(Clean(body.value), limit, Snippet(body, deleted, limit))
  {
    if !deleted && body.Some? {
      CleanOfEmpty();
      CleanIsNormal(body.value);
      SnippetTextIsPrefix(Clean(body.value), limit);
      SnippetTextIsPrefix("", limit);
      hide Clean, Normal, SnippetCut, SnippetText;
    }
  }

  lemma SnippetTextTwice(text: string, limit: nat)
    requires Normal(text)
    ensures SnippetText(SnippetText(text, limit), limit) == SnippetText(text, limit)
  {
    var t := SnippetText(text, limit);
    if |t| > limit {
      var k, e := SnippetCuts(text, limit);
      hide Normal, IsSpace;
      assert k == limit == e;
      assert t[..limit] == text[..limit];
    }
  }

  /** Quoting a quote shows the same quote. */
  lemma SnippetIsIdempotent(body: Option<string>, deleted: bool, limit: nat)
    ensures Snippet(Some(Snippet(body, deleted, limit)), false, limit) == Snippet(body, deleted, limit)
  {
    if !deleted && body.Some? && body.value != "" {
      SnippetIsPrefix(body, deleted, limit);
      CleanIsNormal(body.value);
      CleanIsIdentityIff(Snippet(body, deleted, limit));
      SnippetTextTwice(Clean(body.value), limit);
      hide Clean, Normal, SnippetText, SnippetCut;
    }
  }

  // ----- summary -----

  /** `e` is the end of the last whole word that fits, or 399 when the first one does not. */
  ghost predicate SummaryCut(text: string, t: string, k: nat, e: nat) {
    k <= e <= 399 < 400 < |text| && CutOf(text, t, k) &&
    (forall i | k <= i < e :: text[i] in {' ', ',', ';', ':', '.', '-'}) &&
    (k > 0 ==> text[k - 1] !in {' ', ',', ';', ':', '.', '-'}) &&
    (if e < 399 then text[e] == ' ' else forall i | 0 <= i < e :: text[i] != ' ') &&
    forall i | e < i < 399 :: text[i] != ' '
  }

  lemma SummaryCuts(text: string) returns (k: nat, e: nat)
    requires Normal(text) && |text| > SUMMARY_LIMIT
    ensures SummaryCut(text, SummaryText(text), k, e)
    ensures Normal(SummaryText(text)) && |SummaryText(text)| == k + 1
  {
    Characters();
    TailCharacters();
    e := SummaryEnd(text);
    hide *;
    k := TailCut(text, e, SummaryTail);
    CutIsNormal(text, SummaryText(text), k);
    SummaryCutOf(text, SummaryText(text), k, e);
  }

  /** Where the text is cut before punctuation is dropped. */
  lemma SummaryEnd(text: string) returns (e: nat)
    requires |text| > SUMMARY_LIMIT
    ensures e <= 399 && SummaryText(text) == RStrip(text[..e], SummaryTail) + ELLIPSIS
    ensures if e < 399 then text[e] == ' ' else forall i | 0 <= i < e :: text[i] != ' '
    ensures forall i | e < i < 399 :: text[i] != ' '
  {
    hide IsSpace, SummaryTail, RStrip;
    var cut := text[..SUMMARY_LIMIT - 1];
    e := if ' ' in cut then LastBlank(cut) else |cut|;
    assert cut[..e] == text[..e];
    assert forall i | 0 <= i < |cut| :: cut[i] == text[i];
  }

  lemma SummaryCutOf(text: string, t: string, k: nat, e: nat)
    requires k <= e <= 399 && |text| > SUMMARY_LIMIT && CutOf(text, t, k)
    requires (forall i | k <= i < e :: SummaryTail(text[i])) && (k > 0 ==> !SummaryTail(text[k - 1]))
    requires if e < 399 then text[e] == ' ' else forall i | 0 <= i < e :: text[i] != ' '
    requires forall i | e < i < 399 :: text[i] != ' '
    ensures SummaryCut(text, t, k, e)
  {
    hide CutOf;
  }

  /** The whole words of the first 399 characters, or those characters when they are one word, less
      trailing punctuation. */
  lemma SummaryIsPrefix(description: string)
    ensures var t, text := SummaryOf(Some(description)), Clean(description);
            Normal(t) && |t| <= 400 && (t == "" <==> text == "") &&
            if |text| <= 400 then t == text else exists k: nat, e: nat :: SummaryCut(text, t, k, e)
  {
    CleanIsJoinSplit(description);
    CleanIsNormal(description);
    hide Clean, Normal, Split, Join;
    if |Clean(description)| > SUMMARY_LIMIT {
      var k, e := SummaryCuts(Clean(description));
    }
  }

  lemma ShortSummary(text: string)
    ensures |text| <= SUMMARY_LIMIT ==> SummaryText(text) == text
  {
  }

  /** Summarising a summary changes nothing; only a blank description has the empty summary. */
  lemma SummaryIsIdempotent(description: Option<string>)
    ensures SummaryOf(Some(SummaryOf(description))) == SummaryOf(description)
    ensures SummaryOf(description) == "" <==> Blank(description)
  {
    var d := match description case Some(d) => d case None => "";
    CleanOfEmpty();
    hide Clean, Normal, Split, Join, SummaryCut;
    SummaryIsPrefix(d);
    ShortSummary(SummaryOf(description));
    hide SummaryText;
    CleanIsIdentityIff(SummaryOf(description));
    CleanIsJoinSplit(SummaryOf(description));
  }
}

/** The word tokenizer behind content and name tags (tag/scan.go).
    Go strings and byte slices are modelled as `string`, one char per byte;
    only ASCII letters and digits ever form a word, so the distinction never
    reaches a token. */
module Scan {
  import opened DbTypes
  import opened Tags

  /** isChar: an ASCII letter or digit. */
  predicate IsChar(b: char)
  {
    if 'a' <= b <= 'z' then true
    else if 'A' <= b <= 'Z' then true
    else if '0' <= b <= '9' then true
    else false
  }

  /** A lower-case ASCII letter or a digit. */
  predicate IsLowerChar(b: char)
  {
    'a' <= b <= 'z' || '0' <= b <= '9'
  }

  /** ASCII lower-casing of one byte. */
  function ToLower(b: char): char
  {
    if 'A' <= b <= 'Z' then (b as int + 32) as char else b
  }

  /** bytes.ToLower on a run of ASCII bytes. */
  function Lower(s: string): (r: string)
    ensures |r| == |s|
  {
    seq(|s|, i requires 0 <= i < |s| => ToLower(s[i]))
  }

  /** Lower-casing maps exactly the word bytes onto lower-case letters and
      digits, and leaves their letter-or-digit nature unchanged. */
  lemma LowerKeepsChar(b: char)
    ensures IsChar(b) <==> IsLowerChar(ToLower(b))
    ensures IsChar(b) ==> ToLower(b) == b || 'A' <= b <= 'Z'
  {
  }

  /** The first index at or after `i` holding a word byte, or `|data|`. */
  function FirstChar(data: string, i: nat): (j: nat)
    requires i <= |data|
    ensures i <= j <= |data|
    ensures j < |data| ==> IsChar(data[j])
    ensures forall k :: i <= k < j ==> !IsChar(data[k])
    decreases |data| - i
  {
    if i == |data| || IsChar(data[i]) then i else FirstChar(data, i + 1)
  }

  /** The first index at or after `i` holding a non-word byte, or `|data|`. */
  function RunEnd(data: string, i: nat): (j: nat)
    requires i <= |data|
    ensures i <= j <= |data|
    ensures j < |data| ==> !IsChar(data[j])
    ensures forall k :: i <= k < j ==> IsChar(data[k])
    decreases |data| - i
  {
    if i == |data| || !IsChar(data[i]) then i else RunEnd(data, i + 1)
  }

  /** `data[s..e]` is the first maximal run of word bytes in `data`. */
  ghost predicate FirstRun(data: string, s: int, e: int)
  {
    && 0 <= s < e <= |data|
    && (forall k :: 0 <= k < s ==> !IsChar(data[k]))
    && (forall k :: s <= k < e ==> IsChar(data[k]))
    && (e == |data| || !IsChar(data[e]))
  }

  /** What a split function returns: how far to advance and maybe a token. */
  datatype Split = Split(advance: nat, token: Option<string>)

  /** ScanWords as a function of the buffer and the end-of-input flag. */
  function SplitWord(data: string, atEOF: bool): (r: Split)
    ensures r.advance <= |data|
    ensures r.token.Some? ==> 0 < r.advance
  {
    var s := FirstChar(data, 0);
    if s == |data| then Split(|data|, None)
    else
      var e := RunEnd(data, s);
      if e < |data| then Split(e, Some(Lower(data[s..e])))
      else if atEOF then Split(|data|, Some(Lower(data[s..])))
      else Split(s, None)
  }

  /** What the split function promises: a token is the lower-cased first
      maximal run of letters and digits and `advance` is where that run ends;
      a run reaching the end of the buffer becomes a token only at end of
      input, and is otherwise left unconsumed; a buffer without letters or
      digits is consumed whole without a token. */
  lemma SplitWordSpec(data: string, atEOF: bool)
    ensures var r := SplitWord(data, atEOF);
      && (r.token.Some? ==> |r.token.value| > 0)
      && (r.token.Some? ==> forall k :: 0 <= k < |r.token.value| ==> IsLowerChar(r.token.value[k]))
      && (r.token.Some? ==>
            exists s :: FirstRun(data, s, r.advance) && r.token.value == Lower(data[s..r.advance]))
      && (r.token.Some? && r.advance == |data| ==> atEOF)
      && ((forall k :: 0 <= k < |data| ==> !IsChar(data[k])) <==> r == Split(|data|, None))
      && (r.token.None? && r.advance < |data| ==> !atEOF && FirstRun(data, r.advance, |data|))
  {
    var s := FirstChar(data, 0);
    if s < |data| {
      var e := RunEnd(data, s);
      assert FirstRun(data, s, e);
      LowerRun(data, s, e);
      if e == |data| {
        assert data[s..] == data[s..e];
      }
    }
  }

  lemma LowerRun(data: string, s: nat, e: nat)
    requires s <= e <= |data|
    requires forall k :: s <= k < e ==> IsChar(data[k])
    ensures forall k :: 0 <= k < e - s ==> IsLowerChar(Lower(data[s..e])[k])
  {
    forall k | 0 <= k < e - s
      ensures IsLowerChar(Lower(data[s..e])[k])
    {
      LowerKeepsChar(data[s + k]);
    }
  }

  /** ScanWords: the bufio split function. It finds the first maximal run of
      letters and digits and returns it lower-cased. */
  method ScanWords(data: string, atEOF: bool) returns (advance: nat, token: Option<string>)
    ensures Split(advance, token) == SplitWord(data, atEOF)
  {
    var start := -1;
    var i := 0;
    while i < |data|
      invariant 0 <= i <= |data|
      invariant -1 <= start < i
      invariant start < 0 ==> forall k :: 0 <= k < i ==> !IsChar(data[k])
      invariant start >= 0 ==> start == FirstChar(data, 0)
      invariant start >= 0 ==> forall k :: start <= k < i ==> IsChar(data[k])
    {
      if start < 0 && IsChar(data[i]) {
        start := i;
        i := i + 1;
        continue;
      }
      if start >= 0 && !IsChar(data[i]) {
        assert RunEnd(data, start) == i;
        return i, Some(Lower(data[start..i]));
      }
      i := i + 1;
    }
    if start < 0 {
      return |data|, None;
    }
    assert RunEnd(data, start) == |data|;
    if atEOF {
      return |data|, Some(Lower(data[start..]));
    }
    return start, None;
  }

  /** The words a scanner yields over the whole input, the input being
      delivered as one chunk at end of input. The scanner stops on an empty
      buffer and when the split function consumes the rest without a token. */
  function ScanAll(data: string): seq<string>
    decreases |data|
  {
    if data == [] then []
    else
      var r := SplitWord(data, true);
      if r.token.None? then [] else [r.token.value] + ScanAll(data[r.advance..])
  }

  /** One scanner step: the first word, then the words of the rest. */
  lemma ScanAllStep(data: string)
    requires data != []
    ensures SplitWord(data, true).token.None? ==> ScanAll(data) == []
    ensures SplitWord(data, true).token.Some? ==>
      ScanAll(data) == [SplitWord(data, true).token.value] + ScanAll(data[SplitWord(data, true).advance..])
  {
  }

  /** Every scanned word is non-empty and made of lower-case letters and
      digits. */
  lemma {:induction false} ScanAllWordsAreLower(data: string)
    ensures forall i :: 0 <= i < |ScanAll(data)| ==>
      |ScanAll(data)[i]| > 0 && forall k :: 0 <= k < |ScanAll(data)[i]| ==> IsLowerChar(ScanAll(data)[i][k])
    decreases |data|
  {
    if data != [] {
      var r := SplitWord(data, true);
      if r.token.Some? {
        SplitWordSpec(data, true);
        ScanAllWordsAreLower(data[r.advance..]);
      }
    }
  }

  /** Input without letters or digits yields no word. */
  lemma NoCharNoWords(data: string)
    requires forall k :: 0 <= k < |data| ==> !IsChar(data[k])
    ensures ScanAll(data) == []
  {
  }

  /** First-occurrence de-duplication. */
  function Dedup(ws: seq<string>): seq<string>
  {
    if ws == [] then []
    else
      var p := Dedup(ws[..|ws| - 1]);
      if ws[|ws| - 1] in p then p else p + [ws[|ws| - 1]]
  }

  /** The position of the first occurrence of `w` in `ws`. */
  function FirstAt(ws: seq<string>, w: string): (r: nat)
    requires w in ws
    ensures r < |ws| && ws[r] == w
    ensures forall k :: 0 <= k < r ==> ws[k] != w
  {
    if ws[0] == w then 0 else 1 + FirstAt(ws[1..], w)
  }

  /** A word already in a prefix first occurs where it first occurs in the
      prefix. */
  lemma FirstAtPrefix(ws: seq<string>, n: nat, w: string)
    requires n <= |ws| && w in ws[..n]
    ensures FirstAt(ws, w) == FirstAt(ws[..n], w)
  {
    var k := FirstAt(ws[..n], w);
    assert ws[k] == w;
  }

  /** De-duplication keeps every word, adds none, lists none twice, and
      keeps the words in the order of their first occurrences. */
  lemma {:induction false} DedupSpec(ws: seq<string>)
    ensures Distinct(Dedup(ws))
    ensures forall w :: w in Dedup(ws) <==> w in ws
    ensures forall i, j :: 0 <= i < j < |Dedup(ws)| ==> FirstAt(ws, Dedup(ws)[i]) < FirstAt(ws, Dedup(ws)[j])
  {
    if ws != [] {
      var n := |ws| - 1;
      var init, p := ws[..n], Dedup(ws[..n]);
      DedupSpec(init);
      assert ws == init + [ws[n]];
      forall w | w in p
        ensures FirstAt(ws, w) == FirstAt(init, w) < n
      {
        FirstAtPrefix(ws, n, w);
      }
      if ws[n] !in p {
        assert ws[n] !in init;
        assert FirstAt(ws, ws[n]) == n;
      }
    }
  }

  /** The tag a word becomes. */
  function WordTag(w: string, typ: TagType): Tag
  {
    Tag(w, typ, map[])
  }

  /** A bufio.Scanner driven by ScanWords to the end of the input: calls the
      split function until it stops yielding tokens, advancing past each. */
  method ScanText(data: string) returns (words: seq<string>)
    ensures words == ScanAll(data)
  {
    words := [];
    var rest := data;
    var scanning := true;
    while scanning && rest != []
      invariant words + (if scanning then ScanAll(rest) else []) == ScanAll(data)
      decreases |rest|, scanning
    {
      var advance, token := ScanWords(rest, true);
      ScanAllStep(rest);
      if token.None? {
        scanning := false;
      } else {
        words := words + [token.value];
        rest := rest[advance..];
      }
    }
  }

  /** ExtractContentTags: one CONTENT tag per distinct scanned word. */
  method ExtractContentTags(content: string) returns (out: seq<Tag>)
    ensures forall i :: 0 <= i < |out| ==> out[i] == WordTag(out[i].word, CONTENT)
    ensures forall i :: 0 <= i < |out| ==> out[i].word in ScanAll(content)
    ensures forall w :: w in ScanAll(content) ==> exists i :: 0 <= i < |out| && out[i].word == w
    ensures forall i, j :: 0 <= i < j < |out| ==> out[i].word != out[j].word
  {
    var words := ScanText(content);
    var cache := CacheWords(words, CONTENT);
    ghost var listed;
    out, listed := CacheValues(cache);
    forall w | w in words
      ensures exists i :: 0 <= i < |out| && out[i].word == w
    {
      assert cache[w] in out && cache[w].word == w;
    }
  }

  /** The first loop of ExtractContentTags: a cache holding one tag of type
      `typ` for each distinct word. */
  method CacheWords(words: seq<string>, typ: TagType) returns (cache: map<string, Tag>)
    ensures forall w :: w in cache <==> w in words
    ensures forall w :: w in cache ==> cache[w] == WordTag(w, typ)
  {
    cache := map[];
    for n := 0 to |words|
      invariant forall w :: w in cache <==> w in words[..n]
      invariant forall w :: w in cache ==> cache[w] == WordTag(w, typ)
    {
      var w := words[n];
      if w !in cache {
        cache := cache[w := WordTag(w, typ)];
      }
      assert words[..n + 1] == words[..n] + [w];
    }
    assert words[..|words|] == words;
  }

  /** The values of a word cache, in the map's (unspecified) iteration order. */
  method CacheValues(cache: map<string, Tag>) returns (out: seq<Tag>, ghost listed: seq<string>)
    ensures |listed| == |out| && Distinct(listed)
    ensures forall i :: 0 <= i < |out| ==> listed[i] in cache && out[i] == cache[listed[i]]
    ensures forall w :: w in cache ==> w in listed
    ensures |out| == |cache|
    ensures forall i :: 0 <= i < |out| ==> out[i] in cache.Values
    ensures forall w :: w in cache ==> cache[w] in out
  {
    out, listed := [], [];
    var keys := cache.Keys;
    while keys != {}
      invariant keys <= cache.Keys
      invariant |listed| == |out|
      invariant forall i :: 0 <= i < |out| ==> listed[i] in cache && out[i] == cache[listed[i]]
      invariant forall w :: w in cache ==> (w in listed <==> w !in keys)
      invariant Distinct(listed)
      invariant |out| + |keys| == |cache|
      decreases keys
    {
      var w :| w in keys;
      out := out + [cache[w]];
      listed := listed + [w];
      assert out[|out| - 1] == cache[w];
      keys := keys - {w};
    }
  }

  /** BuildNameTags: the whole name first, then one NAME tag per distinct
      scanned word, in first-occurrence order. */
  method BuildNameTags(s: string) returns (out: seq<Tag>)
    ensures |out| == 1 + |Dedup(ScanAll(s))|
    ensures out[0] == WordTag(s, NAME)
    ensures forall i :: 0 <= i < |Dedup(ScanAll(s))| ==> out[i + 1] == WordTag(Dedup(ScanAll(s))[i], NAME)
  {
    var words := ScanText(s);
    out := [WordTag(s, NAME)];
    var wordcache: map<string, bool> := map[];
    var n := 0;
    while n < |words|
      invariant 0 <= n <= |words|
      invariant forall w :: (w in wordcache && wordcache[w]) <==> w in Dedup(words[..n])
      invariant |out| == 1 + |Dedup(words[..n])| && out[0] == WordTag(s, NAME)
      invariant forall i :: 0 <= i < |Dedup(words[..n])| ==> out[i + 1] == WordTag(Dedup(words[..n])[i], NAME)
    {
      var w := words[n];
      assert words[..n + 1][..n] == words[..n];
      if !(w in wordcache && wordcache[w]) {
        out := out + [WordTag(w, NAME)];
        wordcache := wordcache[w := true];
      }
      n := n + 1;
    }
    assert words[..n] == words;
  }
}

/** The extraction of code levels from the model's answer: every
    `<code>...</code>` block the global regular expression
    `/<code>([\s\S]*?)<\/code>/g` matches, with its tags removed and its
    surrounding white space trimmed, followed by the original source. */
module CodeLevels {
  import opened Collections
  import opened Strings

  const Open: string := "<code>"
  const Close: string := "</code>"

  /** The first position at or after `from` where `w` occurs in `s`. */
  function FindFrom(s: string, w: string, from: nat): (r: Option<nat>)
    ensures r.Some? ==> from <= r.value && OccursAt(s, w, r.value)
    ensures r.Some? ==> forall k :: from <= k < r.value ==> !OccursAt(s, w, k)
    ensures r.None? ==> forall k :: from <= k ==> !OccursAt(s, w, k)
    decreases |s| - from
  {
    if from + |w| > |s| then None
    else if OccursAt(s, w, from) then Some(from)
    else FindFrom(s, w, from + 1)
  }

  /** An opening tag at `q` that some later closing tag completes: the
      positions where the regular expression can start a match. */
  ghost predicate Closable(s: string, q: int) {
    OccursAt(s, Open, q) && exists k :: q + |Open| <= k && OccursAt(s, Close, k)
  }

  /** `s[b..e]` is an opening tag, a body without a closing tag, and the
      nearest closing tag after the opening one. */
  ghost predicate IsMatch(s: string, b: int, e: int) {
    OccursAt(s, Open, b) && b + |Open| <= e - |Close| && OccursAt(s, Close, e - |Close|)
    && forall k :: b + |Open| <= k < e - |Close| ==> !OccursAt(s, Close, k)
  }

  /** No match can start at a position in `[lo, hi)`. */
  ghost predicate NoMatchStartIn(s: string, lo: int, hi: int) {
    forall q :: lo <= q < hi ==> !Closable(s, q)
  }

  /** One search of the regular expression from `from`: the start
      positions are tried left to right; at each, an opening tag needs the
      nearest closing tag after it, and when there is none the search moves
      on to the next position. The match is returned as the span `(b, e)`. */
  function MatchFrom(s: string, from: nat): (r: Option<(nat, nat)>)
    ensures r.Some? ==> from <= r.value.0 && r.value.1 <= |s| && IsMatch(s, r.value.0, r.value.1)
    ensures r.Some? ==> NoMatchStartIn(s, from, r.value.0)
    ensures r.None? ==> NoMatchStartIn(s, from, |s|)
    decreases |s| - from
  {
    if from >= |s| then None
    else if OccursAt(s, Open, from) && FindFrom(s, Close, from + |Open|).Some? then
      Some((from, FindFrom(s, Close, from + |Open|).value + |Close|))
    else
      var r := MatchFrom(s, from + 1);
      assert !Closable(s, from) by {
        if OccursAt(s, Open, from) {
          assert FindFrom(s, Close, from + |Open|).None?;
        }
      }
      r
  }

  /** All matches from `from` on, each search resuming where the previous
      match ended, as `String.prototype.match` with the global flag does. */
  function Spans(s: string, from: nat): (r: seq<(nat, nat)>)
    ensures forall i :: 0 <= i < |r| ==> from <= r[i].0 <= r[i].1 <= |s|
    decreases |s| - from
  {
    match MatchFrom(s, from)
    case None => []
    case Some(m) => [m] + Spans(s, m.1)
  }

  /** Every span is a match at or after `from`. */
  ghost predicate AllMatches(s: string, from: int, r: seq<(nat, nat)>) {
    forall i :: 0 <= i < |r| ==> from <= r[i].0 && r[i].1 <= |s| && IsMatch(s, r[i].0, r[i].1)
  }

  /** Each span ends before the next one starts. */
  predicate InOrder(r: seq<(nat, nat)>) {
    forall i, j :: 0 <= i < j < |r| ==> r[i].1 <= r[j].0
  }

  /** No match starts between `from` and the first span, between two
      consecutive spans, or after the last one. */
  ghost predicate NoMatchBetween(s: string, from: int, r: seq<(nat, nat)>) {
    NoMatchStartIn(s, from, if r == [] then |s| else r[0].0)
    && forall i :: 0 <= i < |r| ==> NoMatchStartIn(s, r[i].1, if i + 1 < |r| then r[i + 1].0 else |s|)
  }

  /** The spans are the matches, in order and without overlap, and every
      position the search skipped could not start a match: together these
      say exactly which blocks the global search finds. */
  lemma {:induction false} SpansSpec(s: string, from: nat)
    ensures AllMatches(s, from, Spans(s, from))
    ensures InOrder(Spans(s, from))
    ensures NoMatchBetween(s, from, Spans(s, from))
    decreases |s| - from
  {
    match MatchFrom(s, from)
    case None =>
    case Some(m) =>
      var rest := Spans(s, m.1);
      SpansSpec(s, m.1);
      var r := [m] + rest;
      assert r == Spans(s, from);
      forall i | 0 <= i < |r| ensures NoMatchStartIn(s, r[i].1, if i + 1 < |r| then r[i + 1].0 else |s|) {
        if i > 0 {
          assert r[i] == rest[i - 1];
        }
      }
  }

  /** The matched texts of `spans`. */
  function Texts(s: string, spans: seq<(nat, nat)>): (r: seq<string>)
    requires forall i :: 0 <= i < |spans| ==> spans[i].0 <= spans[i].1 <= |s|
    ensures |r| == |spans|
    ensures forall i :: 0 <= i < |r| ==> r[i] == s[spans[i].0..spans[i].1]
  {
    if spans == [] then [] else [s[spans[0].0..spans[0].1]] + Texts(s, spans[1..])
  }

  /** `res.match(/<code>([\s\S]*?)<\/code>/g)`: the matched texts, or
      `null` when nothing matches. */
  function MatchAll(res: string): Option<seq<string>> {
    var spans := Spans(res, 0);
    if spans == [] then None else Some(Texts(res, spans))
  }

  /** `block.replace(/<\/?code>/g, "")`: a single left-to-right pass that
      drops every opening and closing tag it meets. */
  function StripTags(s: string): (r: string)
    ensures |r| <= |s|
    decreases |s|
  {
    if s == [] then []
    else if StartsWith(s, Open) then StripTags(s[|Open|..])
    else if StartsWith(s, Close) then StripTags(s[|Close|..])
    else [s[0]] + StripTags(s[1..])
  }

  /** The white space and line terminators `String.prototype.trim`
      removes (sections 22.1.3.32 and 12.2-12.3 of ECMA-262). */
  predicate IsJsWhiteSpace(c: char) {
    c == '\t' || c == '\U{000B}' || c == '\U{000C}' || c == ' ' || c == '\U{00A0}' || c == '\U{FEFF}'
    || c == '\U{1680}' || ('\U{2000}' <= c <= '\U{200A}') || c == '\U{202F}' || c == '\U{205F}' || c == '\U{3000}'
    || c == '\n' || c == '\r' || c == '\U{2028}' || c == '\U{2029}'
  }

  function TrimStart(s: string): (r: string)
    decreases |s|
  {
    if s != [] && IsJsWhiteSpace(s[0]) then TrimStart(s[1..]) else s
  }

  function TrimEnd(s: string): (r: string)
    decreases |s|
  {
    if s != [] && IsJsWhiteSpace(s[|s| - 1]) then TrimEnd(s[..|s| - 1]) else s
  }

  /** `s.trim()`. */
  function Trim(s: string): string {
    TrimEnd(TrimStart(s))
  }

  /** One code level: the block without its tags, trimmed. */
  function CodeLevel(block: string): string {
    Trim(StripTags(block))
  }

  function MapCodeLevel(blocks: seq<string>): (r: seq<string>)
    ensures |r| == |blocks|
    ensures forall i :: 0 <= i < |r| ==> r[i] == CodeLevel(blocks[i])
  {
    if blocks == [] then [] else [CodeLevel(blocks[0])] + MapCodeLevel(blocks[1..])
  }

  /** Lines 66-71 of `summarizeCodeLevels`, given the model's answer `res`:
      the code levels of the matched blocks (none when the match is
      `null`), then the source code. */
  function SummarizedCodeLevels(res: string, sourceCode: string): seq<string> {
    var codeLevels := match MatchAll(res) case None => [] case Some(blocks) => MapCodeLevel(blocks);
    codeLevels + [sourceCode]
  }

  /** The result is one level per match and then the source: its last
      element is always the source, and each earlier one is the code level
      of the matching block of the answer. */
  lemma SummarizedCodeLevelsShape(res: string, sourceCode: string)
    ensures var r := SummarizedCodeLevels(res, sourceCode); var spans := Spans(res, 0);
      |r| == |spans| + 1 && r[|r| - 1] == sourceCode
      && forall i :: 0 <= i < |spans| ==> r[i] == CodeLevel(res[spans[i].0..spans[i].1])
  {
  }

  /** An answer without any complete block yields just the source. */
  lemma NoBlockYieldsSourceOnly(res: string, sourceCode: string)
    requires forall q :: !Closable(res, q)
    ensures SummarizedCodeLevels(res, sourceCode) == [sourceCode]
  {
    var spans := Spans(res, 0);
    SpansSpec(res, 0);
    if spans != [] {
      assert Closable(res, spans[0].0) by {
        assert OccursAt(res, Close, spans[0].1 - |Close|);
      }
    }
  }

  /** An opening tag with no closing tag after it starts no block, and
      neither does any opening tag after it. */
  lemma UnclosedOpenStartsNoBlock(res: string, q: nat)
    requires OccursAt(res, Open, q)
    requires forall k :: q + |Open| <= k ==> !OccursAt(res, Close, k)
    ensures forall i :: 0 <= i < |Spans(res, 0)| ==> Spans(res, 0)[i].0 < q
  {
    var spans := Spans(res, 0);
    SpansSpec(res, 0);
    forall i | 0 <= i < |spans| ensures spans[i].0 < q {
      assert OccursAt(res, Close, spans[i].1 - |Close|);
    }
  }

  /** The tags that wrap a match never leave a residue: its level is the
      trimmed, stripped text between the two tags (the regular
      expression's captured group). */
  lemma {:induction false} LevelOfMatch(s: string, b: nat, e: nat)
    requires e <= |s| && IsMatch(s, b, e)
    ensures CodeLevel(s[b..e]) == Trim(StripTags(s[b + |Open|..e - |Close|]))
  {
    var inner := s[b + |Open|..e - |Close|];
    assert s[b..e] == Open + inner + Close;
    assert StartsWith(Open + inner + Close, Open);
    assert (Open + inner + Close)[|Open|..] == inner + Close;
    StripCloseSuffix(inner);
  }

  /** A closing tag at the end is dropped without touching what precedes
      it: no tag can begin before it and end inside it, since a tag ends at
      its only `>`. */
  lemma {:induction false} StripCloseSuffix(x: string)
    ensures StripTags(x + Close) == StripTags(x)
    decreases |x|
  {
    if x == [] {
      assert [] + Close == Close;
      assert !StartsWith(Close, Open) by {
        assert Close[1] != Open[1];
      }
      assert StartsWith(Close, Close);
    } else {
      var y := x + Close;
      if StartsWith(x, Open) {
        assert StartsWith(y, Open);
        assert y[|Open|..] == x[|Open|..] + Close;
        StripCloseSuffix(x[|Open|..]);
      } else if StartsWith(x, Close) {
        assert !StartsWith(y, Open) by {
          assert y[1] == x[1];
        }
        assert StartsWith(y, Close);
        assert y[|Close|..] == x[|Close|..] + Close;
        StripCloseSuffix(x[|Close|..]);
      } else {
        assert !StartsWith(y, Open) by {
          if StartsWith(y, Open) {
            TagInsideFits(x, Open);
          }
        }
        assert !StartsWith(y, Close) by {
          if StartsWith(y, Close) {
            TagInsideFits(x, Close);
          }
        }
        assert y[1..] == x[1..] + Close;
        StripCloseSuffix(x[1..]);
      }
    }
  }

  /** A tag starts `x + Close` exactly when it starts `x`: its `>` can
      only be the last character of the closing tag, and then the tag would
      be that closing tag itself, which has no room before it. */
  lemma TagInsideFits(x: string, tag: string)
    requires x != [] && (tag == Open || tag == Close)
    ensures StartsWith(x + Close, tag) <==> StartsWith(x, tag)
  {
    var y := x + Close;
    if |x| >= |tag| {
      assert y[..|tag|] == x[..|tag|];
    } else {
      assert y[|tag| - 1] == Close[|tag| - 1 - |x|];
    }
  }

  /** Text with no tag in it is left as it is. */
  lemma {:induction false} StripTagsWithoutTags(s: string)
    requires forall i :: !OccursAt(s, Open, i) && !OccursAt(s, Close, i)
    ensures StripTags(s) == s
    decreases |s|
  {
    if s != [] {
      assert !OccursAt(s, Open, 0) && !OccursAt(s, Close, 0);
      forall i ensures !OccursAt(s[1..], Open, i) && !OccursAt(s[1..], Close, i) {
        if i >= 0 {
          OccursInTail(s, Open, i);
          OccursInTail(s, Close, i);
        }
      }
      StripTagsWithoutTags(s[1..]);
    }
  }

  /** An occurrence in the tail is an occurrence one place further on. */
  lemma OccursInTail(s: string, w: string, i: int)
    requires s != [] && i >= 0
    ensures OccursAt(s[1..], w, i) <==> OccursAt(s, w, i + 1)
  {
    if i + |w| <= |s| - 1 {
      assert s[1..][i..i + |w|] == s[i + 1..i + 1 + |w|];
    }
  }

  /** `trim` cuts off a white-space prefix and a white-space suffix and
      keeps the rest unchanged, and what it keeps neither starts nor ends
      with white space. */
  lemma {:induction false} TrimSpec(s: string) returns (i: nat, j: nat)
    ensures i <= j <= |s| && Trim(s) == s[i..j]
    ensures forall k :: 0 <= k < i ==> IsJsWhiteSpace(s[k])
    ensures forall k :: j <= k < |s| ==> IsJsWhiteSpace(s[k])
    ensures i < j ==> !IsJsWhiteSpace(s[i]) && !IsJsWhiteSpace(s[j - 1])
  {
    i := TrimStartSpec(s);
    var t := s[i..];
    var m := TrimEndSpec(t);
    j := i + m;
    assert t[..m] == s[i..j];
    forall k | j <= k < |s| ensures IsJsWhiteSpace(s[k]) {
      assert s[k] == t[k - i];
    }
  }

  lemma {:induction false} TrimStartSpec(s: string) returns (i: nat)
    ensures i <= |s| && TrimStart(s) == s[i..]
    ensures forall k :: 0 <= k < i ==> IsJsWhiteSpace(s[k])
    ensures i < |s| ==> !IsJsWhiteSpace(s[i])
    decreases |s|
  {
    if s != [] && IsJsWhiteSpace(s[0]) {
      var i' := TrimStartSpec(s[1..]);
      i := i' + 1;
      assert s[1..][i'..] == s[i..];
      forall k | 0 <= k < i ensures IsJsWhiteSpace(s[k]) {
        if k > 0 {
          assert s[k] == s[1..][k - 1];
        }
      }
    } else {
      i := 0;
    }
  }

  lemma {:induction false} TrimEndSpec(s: string) returns (j: nat)
    ensures j <= |s| && TrimEnd(s) == s[..j]
    ensures forall k :: j <= k < |s| ==> IsJsWhiteSpace(s[k])
    ensures 0 < j ==> !IsJsWhiteSpace(s[j - 1])
    decreases |s|
  {
    if s != [] && IsJsWhiteSpace(s[|s| - 1]) {
      var p := s[..|s| - 1];
      j := TrimEndSpec(p);
      assert p[..j] == s[..j];
      forall k | j <= k < |s| ensures IsJsWhiteSpace(s[k]) {
        if k < |s| - 1 {
          assert s[k] == p[k];
        }
      }
    } else {
      j := |s|;
    }
  }

  /** Trimming twice is trimming once. */
  lemma TrimIdempotent(s: string)
    ensures Trim(Trim(s)) == Trim(s)
  {
    var i, j := TrimSpec(s);
    var t := s[i..j];
    var i2, j2 := TrimSpec(t);
    if i < j {
      assert t[0] == s[i] && t[|t| - 1] == s[j - 1];
    }
    assert t[i2..j2] == t;
  }
}

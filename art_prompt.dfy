/** The art prompt of a mention: the regular expression
    `/#generateart\s+(.+)$/i` applied with `String.prototype.match`, then the
    capture trimmed. The matcher is written out as the backtracking search a
    JavaScript engine performs, and proved equal to the regular expression's
    meaning: the leftmost position with a match, and there the longest `\s+`. */
module ArtPrompt {
  import opened Wrappers
  import opened Text
  import opened Tweets

  const TAG := "#generateart"

  /** `#generateart` under the `i` flag at `i`. Without the `u` flag a
      character only folds onto an ASCII letter when it is one, so ASCII
      lower-casing is exact here. */
  predicate TagAt(s: string, i: nat)
  {
    i + |TAG| <= |s| && Lower(s[i..i + |TAG|]) == TAG
  }

  predicate NoLineTerminator(s: string)
  {
    forall j :: 0 <= j < |s| ==> !IsLineTerminator(s[j])
  }

  /** `(.+)$` matches what follows `\s+` when it took `k` characters after
      `p`: the rest is not empty and lies on one line. */
  predicate Fits(s: string, p: nat, k: nat)
  {
    p + k < |s| && NoLineTerminator(s[p + k..])
  }

  /** The whole regular expression matches at `i` with `\s+` taking `k`
      characters; the capture is then `s[i + |TAG| + k..]`. */
  predicate MatchesAt(s: string, i: nat, k: nat)
  {
    && TagAt(s, i)
    && 1 <= k
    && i + |TAG| + k < |s|
    && (forall j :: i + |TAG| <= j < i + |TAG| + k ==> IsSpace(s[j]))
    && NoLineTerminator(s[i + |TAG| + k..])
  }

  /** No match at any position from `i` up to `j`. */
  ghost predicate NoMatchBetween(s: string, i: nat, j: nat)
  {
    forall j': nat, k: nat :: i <= j' < j ==> !MatchesAt(s, j', k)
  }

  /** At `j`, `\s+` cannot take more than `k` characters. */
  ghost predicate Longest(s: string, j: nat, k: nat)
  {
    forall k': nat :: k < k' ==> !MatchesAt(s, j, k')
  }

  /** The capture of the match at `i` whose `\s+` took `k` characters. */
  function Capture(s: string, i: nat, k: nat): string
  {
    if i + |TAG| + k <= |s| then s[i + |TAG| + k..] else []
  }

  /** The greedy `\s+` at `p`: the length of the white-space run there. */
  function SpaceRun(s: string, p: nat): (n: nat)
    requires p <= |s|
    ensures p + n <= |s|
    ensures forall j :: p <= j < p + n ==> IsSpace(s[j])
    ensures p + n == |s| || !IsSpace(s[p + n])
    decreases |s| - p
  {
    if p < |s| && IsSpace(s[p]) then 1 + SpaceRun(s, p + 1) else 0
  }

  /** Backtracking `\s+` from `k` characters down to one until `(.+)$`
      matches. */
  function Backtrack(s: string, p: nat, k: nat): Option<string>
    requires p + k <= |s|
    decreases k
  {
    if k == 0 then None
    else if Fits(s, p, k) then Some(s[p + k..])
    else Backtrack(s, p, k - 1)
  }

  /** The capture backtracking finds is the one for the largest `k` that
      fits, and it finds none only when no `k` fits. */
  lemma {:induction false} BacktrackFacts(s: string, p: nat, k: nat)
    requires p + k <= |s|
    ensures Backtrack(s, p, k).Some? ==>
      exists k': nat :: 1 <= k' <= k && Fits(s, p, k') && Backtrack(s, p, k).value == s[p + k'..]
        && forall k'': nat :: k' < k'' <= k ==> !Fits(s, p, k'')
    ensures Backtrack(s, p, k).None? ==> forall k': nat :: 1 <= k' <= k ==> !Fits(s, p, k')
    decreases k
  {
    if k > 0 && !Fits(s, p, k) {
      BacktrackFacts(s, p, k - 1);
      if Backtrack(s, p, k - 1).Some? {
        var k': nat :| 1 <= k' <= k - 1 && Fits(s, p, k') && Backtrack(s, p, k - 1).value == s[p + k'..]
                       && forall k'': nat :: k' < k'' <= k - 1 ==> !Fits(s, p, k'');
        assert forall k'': nat :: k' < k'' <= k ==> !Fits(s, p, k'');
      }
    } else if k > 0 {
      assert 1 <= k <= k && Fits(s, p, k) && Backtrack(s, p, k).value == s[p + k..];
    }
  }

  /** Within the string, the run of white space at `p` is at least `k` long
      exactly when the `k` characters after `p` are all white space. */
  lemma SpacesWithinRun(s: string, p: nat, k: nat)
    requires p + k <= |s|
    ensures (forall j :: p <= j < p + k ==> IsSpace(s[j])) <==> k <= SpaceRun(s, p)
  {
    var n := SpaceRun(s, p);
    if k > n {
      assert p <= p + n < p + k && !IsSpace(s[p + n]);
    }
  }

  /** The match at `i` alone: the capture, if any. */
  function MatchAt(s: string, i: nat): Option<string>
  {
    if TagAt(s, i) then
      var p := i + |TAG|;
      Backtrack(s, p, SpaceRun(s, p))
    else None
  }

  /** `MatchAt` is the regular expression at `i` with the longest `\s+`. */
  lemma MatchAtIsMatch(s: string, i: nat)
    ensures MatchAt(s, i).Some? ==> exists k: nat :: MatchesAt(s, i, k) && MatchAt(s, i).value == Capture(s, i, k)
                                               && Longest(s, i, k)
    ensures MatchAt(s, i).None? ==> forall k: nat :: !MatchesAt(s, i, k)
  {
    if TagAt(s, i) {
      var p := i + |TAG|;
      var n := SpaceRun(s, p);
      BacktrackFacts(s, p, n);
      forall k: nat
        ensures MatchesAt(s, i, k) <==> 1 <= k <= n && Fits(s, p, k)
      {
        MatchesAtIff(s, i, k);
      }
      var r := Backtrack(s, p, n);
      assert MatchAt(s, i) == r;
      if r.Some? {
        var k: nat :| 1 <= k <= n && Fits(s, p, k) && r.value == s[p + k..]
                      && forall k'': nat :: k < k'' <= n ==> !Fits(s, p, k'');
        assert Capture(s, i, k) == s[p + k..];
        assert MatchesAt(s, i, k) && Longest(s, i, k);
      }
    }
  }

  /** After a tag, `\s+(.+)$` matches with `k` white-space characters exactly
      when the run of white space is that long and `(.+)$` fits after them. */
  lemma MatchesAtIff(s: string, i: nat, k: nat)
    requires TagAt(s, i)
    ensures MatchesAt(s, i, k) <==> 1 <= k <= SpaceRun(s, i + |TAG|) && Fits(s, i + |TAG|, k)
  {
    if i + |TAG| + k <= |s| {
      SpacesWithinRun(s, i + |TAG|, k);
    }
  }

  /** The search of `match` from position `i`: the first position with a
      match gives the capture. */
  function MatchFrom(s: string, i: nat): Option<string>
    decreases |s| - i
  {
    if i + |TAG| > |s| then None
    else if MatchAt(s, i).Some? then MatchAt(s, i)
    else MatchFrom(s, i + 1)
  }

  /** The search finds the leftmost match, with the longest `\s+` there, and
      finds nothing only when there is no match from `i` on. */
  lemma {:induction false} MatchFromFacts(s: string, i: nat)
    ensures MatchFrom(s, i).Some? ==>
      exists j: nat, k: nat :: i <= j && MatchesAt(s, j, k) && MatchFrom(s, i).value == Capture(s, j, k)
        && Longest(s, j, k) && NoMatchBetween(s, i, j)
    ensures MatchFrom(s, i).None? ==> forall j: nat, k: nat :: i <= j ==> !MatchesAt(s, j, k)
    decreases |s| - i
  {
    MatchAtIsMatch(s, i);
    if i + |TAG| > |s| {
      assert forall j: nat :: i <= j ==> !TagAt(s, j);
    } else if MatchAt(s, i).Some? {
      var k: nat :| MatchesAt(s, i, k) && MatchAt(s, i).value == Capture(s, i, k) && Longest(s, i, k);
      assert NoMatchBetween(s, i, i);
    } else {
      MatchFromFacts(s, i + 1);
      if MatchFrom(s, i + 1).Some? {
        var j: nat, k: nat :| i + 1 <= j && MatchesAt(s, j, k) && MatchFrom(s, i + 1).value == Capture(s, j, k)
                              && Longest(s, j, k) && NoMatchBetween(s, i + 1, j);
        assert NoMatchBetween(s, i, j);
      }
    }
  }

  /** `text.match(...)` on a mention's text: the capture of the leftmost
      match, and nothing when there is no text (which `processMention`
      checks first) or no match. */
  function MatchPrompt(text: Option<string>): (r: Option<string>)
    ensures !Truthy(text) ==> r == None
    ensures r.Some? ==> exists j: nat, k: nat :: MatchesAt(text.value, j, k) && r.value == Capture(text.value, j, k)
    ensures Truthy(text) && (exists j: nat, k: nat :: MatchesAt(text.value, j, k)) ==> r.Some?
  {
    if !Truthy(text) then None
    else
      MatchFromFacts(text.value, 0);
      MatchFrom(text.value, 0)
  }

  /** `processMention`'s prompt: the capture, trimmed. */
  function ExtractPrompt(text: Option<string>): Option<string>
  {
    match MatchPrompt(text)
    case None => None
    case Some(capture) => Some(Trim(capture))
  }

  // ---------------------------------------------------------------------
  // The prompt for the shapes a mention takes
  // ---------------------------------------------------------------------

  /** Only a `#` starts a tag: lower-casing never produces one. */
  lemma TagStartsWithHash(s: string, i: nat)
    requires TagAt(s, i)
    ensures s[i] == '#'
  {
    assert Lower(s[i..i + |TAG|])[0] == LowerChar(s[i]);
  }

  /** In a text whose one `#` is at `i`, every match is at `i`. */
  lemma OnlyMatchAt(s: string, i: nat, j: nat, k: nat)
    requires forall x :: 0 <= x < |s| && x != i ==> s[x] != '#'
    requires MatchesAt(s, j, k)
    ensures j == i
  {
    TagStartsWithHash(s, j);
  }

  /** A match with the whole white-space run after the tag, and no `#`
      before it, is the one `match` reports. */
  lemma FirstMatch(s: string, i: nat, k: nat)
    requires MatchesAt(s, i, k) && !IsSpace(s[i + |TAG| + k])
    requires forall x :: 0 <= x < i ==> s[x] != '#'
    ensures MatchFrom(s, 0) == Some(Capture(s, i, k))
  {
    MatchFound(s, i, k);
    var j, k' := LeftmostMatch(s);
    LeftmostAt(s, i, k, j, k');
    WholeRun(s, i, k, k');
    assert Longest(s, i, k');
  }

  /** When there is a match, `match` reports one. */
  lemma MatchFound(s: string, i: nat, k: nat)
    requires MatchesAt(s, i, k)
    ensures MatchFrom(s, 0).Some?
  {
    MatchFromFacts(s, 0);
  }

  /** The match `match` reports, when it reports one. */
  lemma LeftmostMatch(s: string) returns (j: nat, k: nat)
    requires MatchFrom(s, 0).Some?
    ensures MatchesAt(s, j, k) && MatchFrom(s, 0).value == Capture(s, j, k)
    ensures Longest(s, j, k) && NoMatchBetween(s, 0, j)
  {
    MatchFromFacts(s, 0);
    j, k :| MatchesAt(s, j, k) && MatchFrom(s, 0).value == Capture(s, j, k) && Longest(s, j, k) && NoMatchBetween(s, 0, j);
  }

  /** The leftmost match of a text with no `#` before position `i`, where a
      match exists, is at `i`. */
  lemma LeftmostAt(s: string, i: nat, k: nat, j: nat, k': nat)
    requires MatchesAt(s, i, k) && MatchesAt(s, j, k') && NoMatchBetween(s, 0, j)
    requires forall x :: 0 <= x < i ==> s[x] != '#'
    ensures j == i
  {
    TagStartsWithHash(s, j);
    assert i < j ==> !MatchesAt(s, i, k);
  }

  /** Two matches at the same position, the first with the whole run of
      white space: the second takes no more of it. */
  lemma WholeRun(s: string, i: nat, k: nat, k': nat)
    requires MatchesAt(s, i, k) && MatchesAt(s, i, k') && !IsSpace(s[i + |TAG| + k])
    ensures k' <= k
  {
    var p := i + |TAG|;
    var c := s[p + k];
    assert k < k' ==> IsSpace(c);
  }

  /** The characters of a mention made of some text without `#`, a tag in
      any letter case, and the rest. */
  lemma TagShape(pre: string, tag: string, rest: string)
    requires '#' !in pre && Lower(tag) == TAG
    ensures TagAt(pre + tag + rest, |pre|)
    ensures forall x :: 0 <= x < |pre| + |TAG| && x != |pre| ==> (pre + tag + rest)[x] != '#'
    ensures (pre + tag + rest)[|pre| + |TAG|..] == rest
  {
    var s := pre + tag + rest;
    assert s[|pre|..|pre| + |TAG|] == tag;
    forall x | 0 <= x < |pre| + |TAG| && x != |pre|
      ensures s[x] != '#'
    {
      if x < |pre| {
        assert s[x] == pre[x] && pre[x] in pre;
      } else {
        assert s[x] == tag[x - |pre|];
        assert LowerChar(tag[x - |pre|]) == TAG[x - |pre|] != '#';
      }
    }
  }

  /** A tag in any letter case, white space, and a one-line prompt that starts
      with a visible character: the prompt is that text, trimmed. */
  lemma PromptAfterTag(pre: string, tag: string, sp: string, body: string)
    requires '#' !in pre && Lower(tag) == TAG
    requires sp != [] && forall x :: 0 <= x < |sp| ==> IsSpace(sp[x])
    requires body != [] && !IsSpace(body[0]) && NoLineTerminator(body)
    ensures ExtractPrompt(Some(pre + tag + sp + body)) == Some(Trim(body))
  {
    var s := pre + tag + (sp + body);
    assert s == pre + tag + sp + body;
    TagShape(pre, tag, sp + body);
    SpacesThenBody(s, |pre|, sp, body);
    FirstMatch(s, |pre|, |sp|);
    assert MatchPrompt(Some(s)) == Some(body);
  }

  /** After a tag, white space and then a one-line text: a match whose
      capture is that text. */
  lemma SpacesThenBody(s: string, i: nat, sp: string, body: string)
    requires TagAt(s, i) && s[i + |TAG|..] == sp + body
    requires sp != [] && forall x :: 0 <= x < |sp| ==> IsSpace(sp[x])
    requires body != [] && NoLineTerminator(body)
    ensures MatchesAt(s, i, |sp|) && Capture(s, i, |sp|) == body
    ensures s[i + |TAG| + |sp|] == body[0]
  {
    var p := i + |TAG|;
    SuffixOfRest(s, p, sp + body, |sp|);
    assert (sp + body)[|sp|..] == body;
    forall y | p <= y < p + |sp|
      ensures IsSpace(s[y])
    {
      assert s[y] == s[p..][y - p] == sp[y - p];
    }
  }

  /** A prompt that goes on past a line break matches nothing: `.` stops at
      the line terminator and `$` only matches at the very end. */
  lemma MultiLinePromptIgnored(pre: string, tag: string, sp: string, body: string, x: nat)
    requires '#' !in pre && '#' !in body && Lower(tag) == TAG
    requires forall y :: 0 <= y < |sp| ==> IsSpace(sp[y])
    requires body != [] && !IsSpace(body[0]) && x < |body| && IsLineTerminator(body[x])
    ensures ExtractPrompt(Some(pre + tag + sp + body)) == None
  {
    var s := pre + tag + (sp + body);
    assert s == pre + tag + sp + body;
    TagShape(pre, tag, sp + body);
    var i := |pre|;
    var p := i + |TAG|;
    assert s[p..] == sp + body;
    forall y | p <= y < |s|
      ensures s[y] != '#'
    {
      if y < p + |sp| {
        assert s[y] == sp[y - p];
      } else {
        assert s[y] == body[y - p - |sp|];
        assert body[y - p - |sp|] in body;
      }
    }
    assert s[p + |sp|] == body[0];
    assert s[p + |sp| + x] == body[x];
    forall j: nat, k: nat
      ensures !MatchesAt(s, j, k)
    {
      TagAtImpliesHash(s, j);
      if j == i {
        if k <= |sp| {
          LineBreakStopsMatch(s, i, k, p + |sp| + x);
        } else {
          NonSpaceStopsMatch(s, i, k, p + |sp|);
        }
      }
    }
  }

  /** A mention that ends with the tag and white space: no prompt after a
      single white-space character or a final line break, and an empty prompt
      otherwise (`(.+)` takes the last white-space character). */
  lemma TrailingWhiteSpaceOnly(pre: string, tag: string, sp: string)
    requires '#' !in pre && Lower(tag) == TAG
    requires forall y :: 0 <= y < |sp| ==> IsSpace(sp[y])
    ensures ExtractPrompt(Some(pre + tag + sp))
            == if |sp| >= 2 && !IsLineTerminator(sp[|sp| - 1]) then Some([]) else None
  {
    var s := pre + tag + sp;
    TagShape(pre, tag, sp);
    var i := |pre|;
    var p := i + |TAG|;
    forall y | p <= y < |s|
      ensures s[y] != '#'
    {
      assert s[y] == sp[y - p];
    }
    if |sp| >= 2 && !IsLineTerminator(sp[|sp| - 1]) {
      TrailingEmptyPrompt(s, i, sp);
      AllSpaceTrimsToEmpty(MatchPrompt(Some(s)).value);
    } else {
      TrailingNoPrompt(s, i, sp);
    }
  }

  /** Tag, then at least two white-space characters the last of which is on
      the line: `(.+)` takes white space only, so the prompt is empty. */
  lemma TrailingEmptyPrompt(s: string, i: nat, sp: string)
    requires TagAt(s, i) && s[i + |TAG|..] == sp && forall x :: 0 <= x < |s| && x != i ==> s[x] != '#'
    requires forall y :: 0 <= y < |sp| ==> IsSpace(sp[y])
    requires |sp| >= 2 && !IsLineTerminator(sp[|sp| - 1])
    ensures MatchPrompt(Some(s)).Some?
    ensures forall y :: 0 <= y < |MatchPrompt(Some(s)).value| ==> IsSpace(MatchPrompt(Some(s)).value[y])
  {
    var p := i + |TAG|;
    SuffixOfRest(s, p, sp, |sp| - 1);
    assert MatchesAt(s, i, |sp| - 1);
    var r := MatchPrompt(Some(s));
    var j: nat, k: nat :| MatchesAt(s, j, k) && r.value == Capture(s, j, k);
    OnlyMatchAt(s, i, j, k);
    SuffixOfRest(s, p, sp, k);
  }

  /** Tag, then fewer than two white-space characters or a final line
      terminator: no match. */
  lemma TrailingNoPrompt(s: string, i: nat, sp: string)
    requires TagAt(s, i) && s[i + |TAG|..] == sp && forall x :: 0 <= x < |s| && x != i ==> s[x] != '#'
    requires !(|sp| >= 2 && !IsLineTerminator(sp[|sp| - 1]))
    ensures MatchPrompt(Some(s)) == None
  {
    forall j: nat, k: nat
      ensures !MatchesAt(s, j, k)
    {
      TagAtImpliesHash(s, j);
      if j == i && 1 <= k < |sp| {
        assert s[|s| - 1] == s[i + |TAG|..][|sp| - 1];
        LineBreakStopsMatch(s, i, k, |s| - 1);
      }
    }
  }

  /** Only a `#` starts a tag. */
  lemma TagAtImpliesHash(s: string, i: nat)
    ensures TagAt(s, i) ==> s[i] == '#'
  {
    if TagAt(s, i) {
      TagStartsWithHash(s, i);
    }
  }

  /** No match whose capture would contain the line terminator at `y`. */
  lemma LineBreakStopsMatch(s: string, i: nat, k: nat, y: nat)
    requires i + |TAG| + k <= y < |s| && IsLineTerminator(s[y])
    ensures !MatchesAt(s, i, k)
  {
    var q := i + |TAG| + k;
    assert s[q..][y - q] == s[y];
  }

  /** No match whose `\s+` would have to take the visible character at `y`. */
  lemma NonSpaceStopsMatch(s: string, i: nat, k: nat, y: nat)
    requires i + |TAG| <= y < i + |TAG| + k && y < |s| && !IsSpace(s[y])
    ensures !MatchesAt(s, i, k)
  {
  }

  lemma SuffixOfRest(s: string, p: nat, rest: string, k: nat)
    requires p <= |s| && s[p..] == rest && k <= |rest|
    ensures s[p + k..] == rest[k..]
  {
    assert s[p + k..] == s[p..][k..];
  }

  lemma AllSpaceTrimsToEmpty(s: string)
    requires forall y :: 0 <= y < |s| ==> IsSpace(s[y])
    ensures Trim(s) == []
  {
  }
}

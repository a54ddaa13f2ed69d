/** The one shape of regular expression the HTML scrapers use: a literal
    opening text, a lazy capture group, and a literal closing text, as in
    `/<div class="message-time">(.*?)<\/div>/`. With `dotAll` the group is
    `[\s\S]*?` (any character); without it the group is `.*?`, which does not
    cross a line terminator. */
module Patterns {
  import opened Wrappers
  import opened Strings

  datatype Pattern = Pattern(open: string, close: string, dotAll: bool)

  predicate WellFormed(p: Pattern) {
    p.open != [] && p.close != []
  }

  /** Where the lazy group may stop first: the shortest prefix of `t` that is
      followed by `close` and crosses no line terminator unless `dotAll`. */
  function CaptureUntil(t: string, close: string, dotAll: bool): (r: Option<string>)
    ensures r.Some? ==> StartsWith(t, r.value + close)
    ensures r.Some? && !dotAll ==> forall k :: 0 <= k < |r.value| ==> !IsLineTerminator(r.value[k])
    decreases |t|
  {
    if StartsWith(t, close) then Some([])
    else if t == [] || (!dotAll && IsLineTerminator(t[0])) then None
    else
      match CaptureUntil(t[1..], close, dotAll)
      case None => None
      case Some(c) =>
        CaptureStep(t, c, close, dotAll);
        Some([t[0]] + c)
  }

  /** One more character in front of a capture that ends before `close`. */
  lemma CaptureStep(t: string, c: string, close: string, dotAll: bool)
    requires t != [] && StartsWith(t[1..], c + close)
    requires !dotAll ==> !IsLineTerminator(t[0]) && forall k :: 0 <= k < |c| ==> !IsLineTerminator(c[k])
    ensures StartsWith(t, [t[0]] + c + close)
    ensures !dotAll ==> forall k :: 0 <= k < |[t[0]] + c| ==> !IsLineTerminator(([t[0]] + c)[k])
  {
    assert t == [t[0]] + t[1..];
    assert [t[0]] + c + close == [t[0]] + (c + close);
  }

  /** The lazy group stops at the first closing text. */
  lemma {:induction false} CaptureUntilFirst(t: string, close: string, dotAll: bool)
    requires CaptureUntil(t, close, dotAll).Some?
    ensures forall k :: 0 <= k < |CaptureUntil(t, close, dotAll).value| ==> !StartsWith(t[k..], close)
    decreases |t|
  {
    if !StartsWith(t, close) {
      CaptureUntilFirst(t[1..], close, dotAll);
      assert forall k :: 1 <= k <= |t| ==> t[k..] == t[1..][k - 1..];
    }
  }

  /** The group fails only when no admissible end exists. */
  lemma {:induction false} CaptureUntilComplete(t: string, close: string, dotAll: bool, j: nat)
    requires j <= |t| && StartsWith(t[j..], close)
    requires !dotAll ==> forall k :: 0 <= k < j ==> !IsLineTerminator(t[k])
    ensures CaptureUntil(t, close, dotAll).Some?
    ensures |CaptureUntil(t, close, dotAll).value| <= j
    decreases j
  {
    assert t[0..] == t;
    if !StartsWith(t, close) {
      assert t[1..][j - 1..] == t[j..];
      CaptureUntilComplete(t[1..], close, dotAll, j - 1);
    }
  }

  /** The pattern matches with its opening text at position `i` of `s`. */
  predicate MatchesAt(s: string, i: nat, p: Pattern)
    requires i <= |s|
  {
    StartsWith(s[i..], p.open) && CaptureUntil(s[i + |p.open|..], p.close, p.dotAll).Some?
  }

  /** What the group captures for a match at position `i`. */
  function CaptureAt(s: string, i: nat, p: Pattern): string
    requires i <= |s| && MatchesAt(s, i, p)
  {
    CaptureUntil(s[i + |p.open|..], p.close, p.dotAll).value
  }

  datatype Found = Found(start: nat, capture: string)

  /** The end of a match, where a global regular expression resumes. */
  function MatchEnd(f: Found, p: Pattern): nat {
    f.start + |p.open| + |f.capture| + |p.close|
  }

  /** The leftmost match of `p` in `s` at or after position `i`, as `exec` finds it
      with `lastIndex == i`. */
  function FindFrom(s: string, i: nat, p: Pattern): (r: Option<Found>)
    requires i <= |s|
    ensures r.Some? ==> i <= r.value.start <= |s| && MatchesAt(s, r.value.start, p)
    ensures r.Some? ==>
      r.value.capture == CaptureAt(s, r.value.start, p)
    decreases |s| - i
  {
    if MatchesAt(s, i, p) then
      Some(Found(i, CaptureAt(s, i, p)))
    else if i == |s| then None
    else FindFrom(s, i + 1, p)
  }

  /** The match found is the leftmost one, and no match means there is none. */
  lemma FindFromLeftmost(s: string, i: nat, p: Pattern)
    requires i <= |s|
    ensures FindFrom(s, i, p).Some? ==> forall k :: i <= k < FindFrom(s, i, p).value.start ==> !MatchesAt(s, k, p)
    ensures FindFrom(s, i, p).None? ==> forall k :: i <= k <= |s| ==> !MatchesAt(s, k, p)
  {
    if FindFrom(s, i, p).Some? {
      FoundFirst(s, i, p);
    } else {
      NoneFound(s, i, p);
    }
  }

  lemma {:induction false} FoundFirst(s: string, i: nat, p: Pattern)
    requires i <= |s| && FindFrom(s, i, p).Some?
    ensures forall k :: i <= k < FindFrom(s, i, p).value.start ==> !MatchesAt(s, k, p)
    decreases |s| - i
  {
    if !MatchesAt(s, i, p) {
      FoundFirst(s, i + 1, p);
      forall k | i <= k < FindFrom(s, i, p).value.start ensures !MatchesAt(s, k, p) {
        if k > i {
          assert i + 1 <= k < FindFrom(s, i + 1, p).value.start;
        }
      }
    }
  }

  lemma {:induction false} NoneFound(s: string, i: nat, p: Pattern)
    requires i <= |s| && FindFrom(s, i, p).None?
    ensures forall k :: i <= k <= |s| ==> !MatchesAt(s, k, p)
    decreases |s| - i
  {
    if i < |s| {
      NoneFound(s, i + 1, p);
      forall k | i <= k <= |s| ensures !MatchesAt(s, k, p) {
        if k > i {
          assert i + 1 <= k <= |s|;
        }
      }
    }
  }

  /** A match lies inside the text, and resumes past its opening text. */
  lemma MatchEndBound(s: string, f: Found, p: Pattern)
    requires f.start <= |s| && MatchesAt(s, f.start, p)
    requires f.capture == CaptureAt(s, f.start, p)
    ensures f.start + |p.open| <= MatchEnd(f, p) <= |s|
  {
    var t := s[f.start + |p.open|..];
    assert StartsWith(t, f.capture + p.close);
  }

  /** `s.match(p)`: the capture of the leftmost match, or `None` (`null`). */
  function Match(s: string, p: Pattern): Option<string> {
    match FindFrom(s, 0, p)
    case None => None
    case Some(f) => Some(f.capture)
  }

  /** A successful match shows `open + capture + close` inside the text. */
  lemma MatchOccurs(s: string, p: Pattern)
    requires Match(s, p).Some?
    ensures Contains(s, p.open + Match(s, p).value + p.close)
  {
    var f := FindFrom(s, 0, p).value;
    FoundOccurs(s, f, p);
  }

  lemma FoundOccurs(s: string, f: Found, p: Pattern)
    requires f.start <= |s| && MatchesAt(s, f.start, p)
    requires f.capture == CaptureAt(s, f.start, p)
    ensures Contains(s, p.open + f.capture + p.close)
  {
    assert StartsWith(s[f.start + |p.open|..], f.capture + p.close);
    OccursAfter(s, f.start, p.open, f.capture + p.close);
    assert p.open + (f.capture + p.close) == p.open + f.capture + p.close;
  }

  lemma OccursAfter(s: string, i: nat, a: string, b: string)
    requires i <= |s| && StartsWith(s[i..], a) && StartsWith(s[i + |a|..], b)
    ensures Contains(s, a + b)
  {
    var u := s[i..];
    assert u[|a|..] == s[i + |a|..];
    StartsWithConcat(u, a, b);
    StartsWithOccurs(s, a + b, i);
  }

  /** The lazy group never runs past the first closing text. */
  lemma CaptureAvoidsClose(s: string, p: Pattern)
    requires p.close != [] && Match(s, p).Some?
    ensures !Contains(Match(s, p).value, p.close)
  {
    var f := FindFrom(s, 0, p).value;
    CaptureFree(s[f.start + |p.open|..], p.close, p.dotAll);
  }

  lemma CaptureFree(t: string, close: string, dotAll: bool)
    requires close != [] && CaptureUntil(t, close, dotAll).Some?
    ensures !Contains(CaptureUntil(t, close, dotAll).value, close)
  {
    var c := CaptureUntil(t, close, dotAll).value;
    CaptureUntilFirst(t, close, dotAll);
    assert c == t[..|c|];
    forall k | 0 <= k <= |c| - |close|
      ensures !StartsWith(c[k..], close)
    {
      assert c[k..][..|close|] == t[k..][..|close|];
    }
    NoOccurrence(c, close);
  }
}

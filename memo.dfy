/** The location tag that `savePost` writes at the head of a memo and that
    `openDetailView` reads back with the regular expression
    `^\[장소:\s*(.*?)\]\n?`.

    The matcher below follows the backtracking search of that expression:
    `\s*` first takes every white-space character it can and gives them back
    one at a time; for each choice the lazy `(.*?)` grows one non-line-
    terminator character at a time until a `]` follows; the optional `\n?`
    always succeeds, so the first success is the match. */
module Memo {
  import opened Common
  import opened Js

  /** The literal head of the pattern, `[장소:`. */
  const TagOpen: string := "[장소:"

  /** What the detail view shows when a memo carries no tag. */
  const Unplaced: string := "장소 미정"

  /** A memo split for the detail view: the location label and the text
      shown under it. */
  datatype DetailMemo = DetailMemo(location: string, body: string)

  /** A successful match: the captured group and the length of the whole
      match `locMatch[0]`. */
  datatype TagMatch = TagMatch(location: string, length: nat)

  /** Neither a `]` nor a line terminator: what `(.*?)\]` can capture. */
  predicate Capturable(c: char) {
    c != ']' && !IsLineTerminator(c)
  }

  predicate AllCapturable(s: string) {
    forall i :: 0 <= i < |s| ==> Capturable(s[i])
  }

  /** Every character of `s[i..j]` may be consumed by the lazy group without
      the group ending there. */
  predicate Plain(s: string, i: nat, j: nat)
    requires i <= j <= |s|
  {
    forall k :: i <= k < j ==> Capturable(s[k])
  }

  // ---------------------------------------------------------------------------
  // The encoder of savePost
  // ---------------------------------------------------------------------------

  /** The memo `savePost` stores: `[장소: ` + trimmed location + `]` + a line
      feed + trimmed content. */
  function Encode(location: string, content: string): (memo: string)
    ensures TagOpen <= memo
    ensures |memo| == |TagOpen| + |Trim(location)| + |Trim(content)| + 3
  {
    TagOpen + " " + Trim(location) + "]\n" + Trim(content)
  }

  // ---------------------------------------------------------------------------
  // The matcher
  // ---------------------------------------------------------------------------

  /** `(.*?)\]` started at `i`: the position of the `]` that ends the lazy
      group, or nothing when a line terminator or the end of the text comes
      first. */
  function LazyClose(s: string, i: nat): (r: Option<nat>)
    requires i <= |s|
    ensures r.Some? ==> i <= r.value < |s| && s[r.value] == ']' && Plain(s, i, r.value)
    decreases |s| - i
  {
    if i == |s| then None
    else if s[i] == ']' then Some(i)
    else if IsLineTerminator(s[i]) then None
    else LazyClose(s, i + 1)
  }

  /** Backtracking over `\s*`: try `k` white-space characters, then `k - 1`,
      down to none. Gives the number taken and the position of the `]`. */
  function TryWhite(s: string, start: nat, k: nat): (r: Option<(nat, nat)>)
    requires start + k <= |s|
    ensures r.Some? ==> r.value.0 <= k && start + r.value.0 <= r.value.1
    ensures r.Some? ==> LazyClose(s, start + r.value.0) == Some(r.value.1)
    decreases k
  {
    match LazyClose(s, start + k)
    case Some(j) => Some((k, j))
    case None => if k == 0 then None else TryWhite(s, start, k - 1)
  }

  /** `memo.match(/^\[장소:\s*(.*?)\]\n?/)`. */
  function MatchTag(s: string): (r: Option<TagMatch>)
    ensures r.Some? ==> TagOpen <= s && |TagOpen| < r.value.length <= |s|
    ensures r.Some? ==> AllCapturable(r.value.location)
  {
    if !(TagOpen <= s) then None
    else TagAt(s, TryWhite(s, |TagOpen|, WhiteRun(s, |TagOpen|)))
  }

  /** The match once the white space taken (`k`) and the closing `]` (at
      `j`) are known: the capture between them, and a match running through
      the `]` and one line feed if one follows. */
  function TagAt(s: string, found: Option<(nat, nat)>): Option<TagMatch>
    requires found.Some? ==> |TagOpen| + found.value.0 <= found.value.1 < |s|
  {
    match found
    case None => None
    case Some((k, j)) =>
      Some(TagMatch(s[|TagOpen| + k..j], if j + 1 < |s| && s[j + 1] == '\n' then j + 2 else j + 1))
  }


  /** When the greedy choice for `\s*` finds no `]`, no shorter choice does:
      every character given back is white space, which the group can only
      consume on the way to the same place. */
  lemma {:induction false} BacktrackingNeverHelps(s: string, start: nat, k: nat)
    requires start + k <= |s|
    requires forall i :: start <= i < start + k ==> IsWhiteSpace(s[i])
    requires LazyClose(s, start + k).None?
    ensures TryWhite(s, start, k).None?
  {
    if k > 0 {
      var p := start + k - 1;
      assert IsWhiteSpace(s[p]);
      WhiteNeverCloses(s, p);
      BacktrackingNeverHelps(s, start, k - 1);
    }
  }

  /** A white-space character neither closes the group nor lets it reach a
      `]` that is not reachable from the next position. */
  lemma WhiteNeverCloses(s: string, p: nat)
    requires p < |s| && IsWhiteSpace(s[p])
    requires LazyClose(s, p + 1).None?
    ensures LazyClose(s, p).None?
  {
    assert s[p] != ']';
  }

  /** The regular expression without backtracking: `\s*` takes all the
      white space after `[장소:`, then the lazy group runs to the first `]`
      unless a line terminator comes first; the match ends after that `]` and
      one line feed if there is one. */
  function GreedyMatch(s: string): Option<TagMatch> {
    if !(TagOpen <= s) then None
    else TagAt(s, GreedyClose(s, |TagOpen|, WhiteRun(s, |TagOpen|)))
  }

  /** `\s*` keeping all `k` white-space characters, then the lazy group. */
  function GreedyClose(s: string, start: nat, k: nat): Option<(nat, nat)>
    requires start + k <= |s|
  {
    match LazyClose(s, start + k)
    case None => None
    case Some(j) => Some((k, j))
  }


  /** The backtracking search finds exactly the greedy match: giving white
      space back to the text never produces a match the greedy choice
      missed. */
  lemma MatchTagIsGreedy(s: string)
    ensures MatchTag(s) == GreedyMatch(s)
  {
    if TagOpen <= s {
      TryWhiteGreedy(s, |TagOpen|, WhiteRun(s, |TagOpen|));
    }
  }

  /** Backtracking from an all-white run ends where the greedy choice does. */
  lemma TryWhiteGreedy(s: string, start: nat, k: nat)
    requires start + k <= |s|
    requires forall i :: start <= i < start + k ==> IsWhiteSpace(s[i])
    ensures TryWhite(s, start, k) == GreedyClose(s, start, k)
  {
    if LazyClose(s, start + k).None? {
      BacktrackingNeverHelps(s, start, k);
    }
  }


  /** What a match looks like: the captured location never starts with white
      space (the `\s*` before it is greedy) and holds no `]` and no line
      terminator, and the matched prefix is `[장소:`, white space, the
      location, `]`, and at most one line feed. */
  lemma MatchShape(s: string)
    requires MatchTag(s).Some?
    ensures var m := MatchTag(s).value;
      var n := |TagOpen| + WhiteRun(s, |TagOpen|);
      && n + |m.location| < m.length <= |s|
      && s[..n + |m.location| + 1] == s[..n] + m.location + "]"
      && AllWhiteSpace(s[|TagOpen|..n])
      && (m.location == [] || !IsWhiteSpace(m.location[0]))
      && m.length == n + |m.location| + (if n + |m.location| + 1 < |s| && s[n + |m.location| + 1] == '\n' then 2 else 1)
  {
    MatchTagIsGreedy(s);
    GreedyShape(s);
    WhiteRunIsWhite(s, |TagOpen|);
  }

  lemma GreedyShape(s: string)
    requires GreedyMatch(s).Some?
    ensures var m := GreedyMatch(s).value;
      var n := |TagOpen| + WhiteRun(s, |TagOpen|);
      && n + |m.location| < m.length <= |s|
      && s[..n + |m.location| + 1] == s[..n] + m.location + "]"
      && (m.location == [] || !IsWhiteSpace(m.location[0]))
      && m.length == n + |m.location| + (if n + |m.location| + 1 < |s| && s[n + |m.location| + 1] == '\n' then 2 else 1)
  {
    var n := |TagOpen| + WhiteRun(s, |TagOpen|);
    var j := GreedyAt(s);
    assert s[..j + 1] == s[..n] + s[n..j] + [s[j]];
  }

  /** A greedy match closes at the `]` the lazy group finds after the whole
      white-space run. */
  lemma GreedyAt(s: string) returns (j: nat)
    requires GreedyMatch(s).Some?
    ensures var n := |TagOpen| + WhiteRun(s, |TagOpen|);
      && n <= j < |s| && LazyClose(s, n) == Some(j)
      && GreedyMatch(s).value == TagMatch(s[n..j], if j + 1 < |s| && s[j + 1] == '\n' then j + 2 else j + 1)
  {
    var m := WhiteRun(s, |TagOpen|);
    j := LazyClose(s, |TagOpen| + m).value;
    assert GreedyClose(s, |TagOpen|, m) == Some((m, j));
  }


  // ---------------------------------------------------------------------------
  // The decoder of openDetailView
  // ---------------------------------------------------------------------------

  /** `openDetailView`'s split of `postData.memo || ''`: with a tag, the
      captured location and the memo with `locMatch[0]` replaced by nothing;
      without one, the placeholder location and the whole memo. */
  function Decode(memo: Option<string>): (d: DetailMemo)
    ensures MatchTag(memo.GetOr("")).None? ==> d == DetailMemo(Unplaced, memo.GetOr(""))
    ensures MatchTag(memo.GetOr("")).Some? ==> |d.body| < |memo.GetOr("")|
  {
    var text := memo.GetOr("");
    match MatchTag(text)
    case None => DetailMemo(Unplaced, text)
    case Some(m) => DetailMemo(m.location, RemoveFirst(text, text[..m.length]))
  }

  /** Decoding removes exactly the matched prefix: the body is what follows
      the match. */
  lemma DecodeStripsMatch(text: string)
    requires MatchTag(text).Some?
    ensures Decode(Some(text)) == DetailMemo(MatchTag(text).value.location, text[MatchTag(text).value.length..])
  {
    var m := MatchTag(text).value;
    assert OccursAt(text, text[..m.length], 0);
  }
  /** Decoding in terms of the reference matcher. */
  lemma DecodeGreedy(s: string, loc: string, len: nat)
    requires GreedyMatch(s) == Some(TagMatch(loc, len))
    ensures len <= |s| && Decode(Some(s)) == DetailMemo(loc, s[len..])
  {
    MatchTagIsGreedy(s);
    DecodeStripsMatch(s);
  }


  /** A memo built by `savePost` from a location that, once trimmed, holds no
      `]` and no line terminator reads back as that trimmed location and the
      trimmed content. */
  lemma EncodeDecodeRoundTrip(location: string, content: string)
    requires AllCapturable(Trim(location))
    ensures Decode(Some(Encode(location, content))) == DetailMemo(Trim(location), Trim(content))
  {
    var loc := Trim(location);
    assert loc == [] || !IsWhiteSpace(loc[0]);
    TaggedReadsBack(loc, Trim(content));
  }

  /** The lazy group closes at a `]` it reaches without meeting another `]`
      or a line terminator. */
  lemma {:induction false} LazyCloseAt(s: string, i: nat, j: nat)
    requires i <= j < |s| && s[j] == ']' && Plain(s, i, j)
    ensures LazyClose(s, i) == Some(j)
    decreases j - i
  {
    if i < j {
      assert Capturable(s[i]);
      LazyCloseAt(s, i + 1, j);
    }
  }

  /** When the lazy group fails, no `]` is reachable from `i` without
      crossing a line terminator. */
  lemma LazyCloseNone(s: string, i: nat)
    requires i <= |s| && LazyClose(s, i).None?
    ensures forall j :: i <= j < |s| && Plain(s, i, j) ==> s[j] != ']'
  {
    forall j | i <= j < |s| && Plain(s, i, j) ensures s[j] != ']' {
      if s[j] == ']' {
        LazyCloseAt(s, i, j);
      }
    }
  }

  /** The round trip on an already trimmed location. */
  lemma TaggedReadsBack(loc: string, body: string)
    requires AllCapturable(loc)
    requires loc == [] || !IsWhiteSpace(loc[0])
    ensures Decode(Some(TagOpen + " " + loc + "]\n" + body)) == DetailMemo(loc, body)
  {
    var s := TagOpen + " " + loc + "]\n" + body;
    TaggedMatch(loc, body);
    MatchTagIsGreedy(s);
    DecodeStripsMatch(s);
    assert s[|TagOpen| + |loc| + 3..] == body;
  }

  lemma TaggedMatch(loc: string, body: string)
    requires AllCapturable(loc)
    requires loc == [] || !IsWhiteSpace(loc[0])
    ensures GreedyMatch(TagOpen + " " + loc + "]\n" + body) == Some(TagMatch(loc, |TagOpen| + |loc| + 3))
  {
    var s := TagOpen + " " + loc + "]\n" + body;
    var n := |TagOpen| + 1;
    var j := n + |loc|;
    assert s[|TagOpen|] == ' ';
    assert s[n..j] == loc;
    assert s[j] == ']' && s[j + 1] == '\n';
    assert WhiteRun(s, n) == 0 by {
      assert s[n] == if |loc| > 0 then loc[0] else ']';
    }
    assert WhiteRun(s, |TagOpen|) == 1;
    assert Plain(s, n, j) by {
      forall k | n <= k < j ensures Capturable(s[k]) {
        assert s[k] == loc[k - n];
      }
    }
    LazyCloseAt(s, n, j);
  }


  /** An empty location is stored as `[장소: ]` and reads back as the empty
      location, not as the placeholder. */
  lemma EmptyLocationIsNotUnplaced(content: string)
    ensures Decode(Some(Encode("", content))).location == ""
    ensures Decode(Some(Encode("", content))).location != Unplaced
  {
    assert Trim("") == "";
    EncodeDecodeRoundTrip("", content);
  }

  /** A memo that does not match (missing, empty, or without the tag) shows
      the placeholder location and the memo unchanged. */
  lemma UntaggedMemoFallsBack(memo: Option<string>)
    requires MatchTag(memo.GetOr("")).None?
    ensures Decode(memo) == DetailMemo(Unplaced, memo.GetOr(""))
  {
  }

  lemma MissingMemoIsEmpty()
    ensures Decode(None) == DetailMemo(Unplaced, "")
    ensures Decode(Some("")) == DetailMemo(Unplaced, "")
  {
    assert !(TagOpen <= "");
  }

  /** A tag whose `]` comes only after a line break does not match: the
      lazy group cannot cross a line terminator. */
  lemma TagBrokenByLineDoesNotMatch(rest: string)
    ensures Decode(Some(TagOpen + " A\n]" + rest)) == DetailMemo(Unplaced, TagOpen + " A\n]" + rest)
  {
    BrokenNoMatch(rest);
    MatchTagIsGreedy(TagOpen + " A\n]" + rest);
  }

  lemma BrokenNoMatch(rest: string)
    ensures GreedyMatch(TagOpen + " A\n]" + rest).None?
  {
    var s := TagOpen + " A\n]" + rest;
    assert s[|TagOpen|] == ' ' && s[|TagOpen| + 1] == 'A' && s[|TagOpen| + 2] == '\n';
    assert WhiteRun(s, |TagOpen|) == 1;
    assert LazyClose(s, |TagOpen| + 1).None?;
  }


  /** `\s*` may swallow line terminators: a tag written over two lines still
      matches, with an empty location. */
  lemma WhiteSpaceCrossesLines(rest: string)
    requires rest == [] || rest[0] != '\n'
    ensures Decode(Some(TagOpen + "\n]" + rest)) == DetailMemo("", rest)
  {
    var s := TagOpen + "\n]" + rest;
    WhiteSpaceMatch(rest);
    assert s[|TagOpen| + 2..] == rest;
    DecodeGreedy(s, "", |TagOpen| + 2);
  }

  lemma WhiteSpaceMatch(rest: string)
    requires rest == [] || rest[0] != '\n'
    ensures GreedyMatch(TagOpen + "\n]" + rest) == Some(TagMatch("", |TagOpen| + 2))
  {
    var s := TagOpen + "\n]" + rest;
    var n := |TagOpen| + 1;
    assert s[|TagOpen|] == '\n' && s[n] == ']';
    assert WhiteRun(s, |TagOpen|) == 1;
    assert LazyClose(s, n) == Some(n);
    assert n + 1 < |s| ==> s[n + 1] == rest[0];
    assert s[n..n] == [];
  }


  /** The detail view of a typical stored memo: the tag line is stripped
      entirely. */
  lemma RoomExample(body: string)
    ensures Decode(Some("[장소: Room A]\n" + body)) == DetailMemo("Room A", body)
  {
    assert AllCapturable("Room A") by {
      forall i | 0 <= i < |"Room A"| ensures Capturable("Room A"[i]) {}
    }
    assert "[장소: Room A]\n" + body == TagOpen + " " + "Room A" + "]\n" + body;
    TaggedReadsBack("Room A", body);
  }


  /** A location holding `]` does not survive the round trip: the lazy group
      stops at the first `]`, and the rest of the location moves into the
      body. */
  lemma BracketCutsLocation(body: string)
    ensures Decode(Some(TagOpen + " A]B]\n" + body)) == DetailMemo("A", "B]\n" + body)
  {
    var s := TagOpen + " A]B]\n" + body;
    BracketMatch(body);
    assert s[|TagOpen| + 3..] == "B]\n" + body;
    DecodeGreedy(s, "A", |TagOpen| + 3);
  }



  lemma BracketMatch(body: string)
    ensures GreedyMatch(TagOpen + " A]B]\n" + body) == Some(TagMatch("A", |TagOpen| + 3))
  {
    var s := TagOpen + " A]B]\n" + body;
    var n := |TagOpen| + 1;
    assert s[|TagOpen|] == ' ' && s[n] == 'A' && s[n + 1] == ']' && s[n + 2] == 'B';
    assert WhiteRun(s, |TagOpen|) == 1;
    assert LazyClose(s, n) == Some(n + 1);
    assert s[n..n + 1] == "A";
  }


}

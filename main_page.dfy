/** The decision logic of the main screen: the extraction of `label: text` fields from
    the model's reply, the keyword input, the list of opened services, and the order in
    which `fetchChatGPTResponse` consults the quota. The HTTP request and the reducer are
    not modelled: the reply is an input and the dispatched actions are the output. */
module MainPage {
  import opened Wrappers
  import opened JsText
  import opened IsoDate
  import opened FirebaseConfig

  // ---- the global regular expression /(\w+):\s([^:\n]+)/g ----

  /** End of the run of `\w` characters starting at `p`. */
  function WordRunEnd(s: string, p: nat): (q: nat)
    requires p <= |s|
    ensures p <= q <= |s|
    ensures forall i :: p <= i < q ==> IsWordChar(s[i])
    ensures q == |s| || !IsWordChar(s[q])
    decreases |s| - p
  {
    if p < |s| && IsWordChar(s[p]) then WordRunEnd(s, p + 1) else p
  }

  /** The class `[^:\n]`. */
  predicate IsDescriptionChar(c: char) {
    c != ':' && c != '\n'
  }

  /** End of the run of `[^:\n]` characters starting at `p`. */
  function DescriptionRunEnd(s: string, p: nat): (e: nat)
    requires p <= |s|
    ensures p <= e <= |s|
    ensures forall i :: p <= i < e ==> IsDescriptionChar(s[i])
    ensures e == |s| || !IsDescriptionChar(s[e])
    decreases |s| - p
  {
    if p < |s| && IsDescriptionChar(s[p]) then DescriptionRunEnd(s, p + 1) else p
  }

  /** One result of `exec`: where the match starts, the two groups, and the `lastIndex`
      it leaves behind. */
  datatype RegexMatch = RegexMatch(index: nat, tag: string, text: string, end: nat)

  /** The pattern can match `s[p..e]` with its `:` at `q`: `\w+` is `s[p..q]`, `\s` is
      `s[q + 1]` and `[^:\n]+` is `s[q + 2..e]`. */
  predicate Admits(s: string, p: int, q: int, e: int) {
    && 0 <= p < q && q + 2 < e <= |s|
    && (forall i :: p <= i < q ==> IsWordChar(s[i]))
    && s[q] == ':' && IsWhitespace(s[q + 1])
    && (forall i :: q + 2 <= i < e ==> IsDescriptionChar(s[i]))
  }

  /** The match the pattern makes when tried at `p`, if any. */
  function MatchAt(s: string, p: nat): (m: Option<RegexMatch>)
    requires p <= |s|
    ensures m.Some? ==> m.value.index == p && p < m.value.end <= |s|
    ensures m.Some? ==> ':' !in m.value.text && '\n' !in m.value.text
  {
    var q := WordRunEnd(s, p);
    if p < q && q + 2 < |s| && s[q] == ':' && IsWhitespace(s[q + 1]) && IsDescriptionChar(s[q + 2]) then
      var e := DescriptionRunEnd(s, q + 2);
      var text := s[q + 2..e];
      assert forall j :: 0 <= j < |text| ==> text[j] == s[q + 2 + j];
      Some(RegexMatch(p, s[p..q], text, e))
    else
      None
  }

  /** `MatchAt` is what the pattern does at `p`: its match is one the pattern admits,
      with the groups at the right places, and whenever the pattern admits some match at
      `p`, `MatchAt` finds one, with the same colon and the longest text (the greedy
      `[^:\n]+`). */
  lemma MatchAtIsGreedyMatch(s: string, p: nat)
    requires p <= |s|
    ensures var m := MatchAt(s, p);
            m.Some? ==> var q := p + |m.value.tag|;
                        && Admits(s, p, q, m.value.end)
                        && m.value.tag == s[p..q] && m.value.text == s[q + 2..m.value.end]
    ensures forall q, e {:trigger Admits(s, p, q, e)} :: Admits(s, p, q, e) ==>
              MatchAt(s, p).Some? && q == p + |MatchAt(s, p).value.tag| && e <= MatchAt(s, p).value.end
  {
    var q := WordRunEnd(s, p);
    forall q', e' | Admits(s, p, q', e')
      ensures MatchAt(s, p).Some? && q' == p + |MatchAt(s, p).value.tag| && e' <= MatchAt(s, p).value.end
    {
      assert q' == q;
    }
  }

  /** The leftmost match starting at or after `from`. */
  function FindFrom(s: string, from: nat): (m: Option<RegexMatch>)
    requires from <= |s|
    ensures m.Some? ==> from <= m.value.index <= |s| && MatchAt(s, m.value.index) == m
    ensures forall p :: from <= p <= |s| && (m.None? || p < m.value.index) ==> MatchAt(s, p).None?
    decreases |s| - from
  {
    if MatchAt(s, from).Some? then MatchAt(s, from)
    else if from == |s| then None
    else FindFrom(s, from + 1)
  }

  /** The matches `exec` returns one after another, starting from `lastIndex == from`. */
  function AllMatches(s: string, from: nat): seq<RegexMatch>
    requires from <= |s|
    decreases |s| - from
  {
    match FindFrom(s, from)
    case None => []
    case Some(m) => [m] + AllMatches(s, m.end)
  }

  /** Every match `exec` returns is the match the pattern makes at its own index. */
  lemma {:induction false} AllMatchesArePatternMatches(s: string, from: nat)
    requires from <= |s|
    ensures forall i :: 0 <= i < |AllMatches(s, from)| ==>
              from <= AllMatches(s, from)[i].index <= |s| && MatchAt(s, AllMatches(s, from)[i].index) == Some(AllMatches(s, from)[i])
    decreases |s| - from
  {
    var ms := AllMatches(s, from);
    var found := FindFrom(s, from);
    if found.Some? {
      var m := found.value;
      AllMatchesStep(s, from);
      AllMatchesArePatternMatches(s, m.end);
      var rest := AllMatches(s, m.end);
      assert ms == [m] + rest;
      forall i | 0 < i < |ms|
        ensures from <= ms[i].index <= |s| && MatchAt(s, ms[i].index) == Some(ms[i])
      {
        assert ms[i] == rest[i - 1];
      }
    }
  }

  /** The matches come in order and do not overlap: each starts at or after the end of
      the one before. */
  lemma {:induction false} AllMatchesInOrder(s: string, from: nat)
    requires from <= |s|
    ensures var ms := AllMatches(s, from);
            forall i :: 0 <= i < |ms| - 1 ==> ms[i].end <= ms[i + 1].index
    decreases |s| - from
  {
    var ms := AllMatches(s, from);
    var found := FindFrom(s, from);
    if found.Some? {
      var m := found.value;
      AllMatchesStep(s, from);
      AllMatchesInOrder(s, m.end);
      var rest := AllMatches(s, m.end);
      assert ms == [m] + rest;
      if rest != [] {
        AllMatchesStep(s, m.end);
      }
      forall i | 0 <= i < |ms| - 1
        ensures ms[i].end <= ms[i + 1].index
      {
        assert ms[i + 1] == rest[i];
        if i > 0 {
          assert ms[i] == rest[i - 1];
        }
      }
    }
  }

  /** One step of the sequence of matches: a match ends after it starts, and the search
      goes on from its end. */
  lemma AllMatchesStep(s: string, from: nat)
    requires from <= |s| && FindFrom(s, from).Some?
    ensures var m := FindFrom(s, from).value;
            && from <= m.index < m.end <= |s|
            && AllMatches(s, from) == [m] + AllMatches(s, m.end)
            && ':' !in m.text && '\n' !in m.text
  {
    var m := FindFrom(s, from).value;
    assert MatchAt(s, m.index) == Some(m);
  }

  /** A regular expression object with the global flag: `exec` searches from `lastIndex`
      and moves it past the match, or resets it to 0 when there is none. */
  class GlobalRegex {
    var lastIndex: nat

    constructor ()
      ensures lastIndex == 0
    {
      lastIndex := 0;
    }

    method Exec(s: string) returns (m: Option<RegexMatch>)
      modifies this
      ensures old(lastIndex) > |s| ==> m.None?
      ensures old(lastIndex) <= |s| ==> m == FindFrom(s, old(lastIndex))
      ensures m.Some? ==> lastIndex == m.value.end && old(lastIndex) < lastIndex <= |s|
      ensures m.None? ==> lastIndex == 0
    {
      if lastIndex > |s| {
        lastIndex := 0;
        return None;
      }
      m := FindFrom(s, lastIndex);
      if m.Some? {
        lastIndex := m.value.end;
      } else {
        lastIndex := 0;
      }
    }
  }

  // ---- field extraction ----

  /** The keys of the `services` record. */
  const ServiceKeys: set<string> := {"youtube", "facebook", "instagram", "tiktok"}

  const EmptyServices: map<string, string> := map["youtube" := "", "facebook" := "", "instagram" := "", "tiktok" := ""]

  /** The trimmed text of the last match whose lower-cased tag is `key`, or `""`. */
  function LastText(ms: seq<RegexMatch>, key: string): string
    decreases |ms|
  {
    if ms == [] then ""
    else if ToLower(ms[|ms| - 1].tag) == key then Trim(ms[|ms| - 1].text)
    else LastText(ms[..|ms| - 1], key)
  }

  /** The record the extraction loop builds from the reply `content`. */
  method ExtractServices(content: string) returns (services: map<string, string>)
    ensures services.Keys == ServiceKeys
    ensures forall key :: key in services ==> services[key] == LastText(AllMatches(content, 0), key)
  {
    services := EmptyServices;
    var regex := new GlobalRegex();
    ghost var seen: seq<RegexMatch> := [];
    while true
      invariant regex.lastIndex <= |content|
      invariant seen + AllMatches(content, regex.lastIndex) == AllMatches(content, 0)
      invariant services.Keys == ServiceKeys
      invariant forall key :: key in services ==> services[key] == LastText(seen, key)
      decreases |content| - regex.lastIndex
    {
      ghost var before := regex.lastIndex;
      var found := regex.Exec(content);
      if found.None? {
        assert AllMatches(content, before) == [];
        assert seen == AllMatches(content, 0);
        break;
      }
      AllMatchesStep(content, before);
      SnocThenAppend(seen, found.value, AllMatches(content, regex.lastIndex));
      ghost var previous := services;
      var service := ToLower(found.value.tag);
      var description := Trim(found.value.text);
      if service in services {
        services := services[service := description];
      }
      FieldsAfterMatch(previous, seen, found.value);
      seen := seen + [found.value];
    }
  }

  lemma SnocThenAppend(seen: seq<RegexMatch>, m: RegexMatch, rest: seq<RegexMatch>)
    ensures (seen + [m]) + rest == seen + ([m] + rest)
  {
  }

  /** The record `ExtractServices` builds from `content`, as a value. */
  function ServicesOf(content: string): (services: map<string, string>)
    ensures services.Keys == ServiceKeys
  {
    map key | key in ServiceKeys :: LastText(AllMatches(content, 0), key)
  }

  /** A record with the four keys, each holding the last match's text, is `ServicesOf`. */
  lemma ServicesOfIsTheRecord(services: map<string, string>, content: string)
    requires services.Keys == ServiceKeys
    requires forall key :: key in services ==> services[key] == LastText(AllMatches(content, 0), key)
    ensures services == ServicesOf(content)
  {
  }

  lemma LastTextSnoc(ms: seq<RegexMatch>, m: RegexMatch)
    ensures forall key :: LastText(ms + [m], key) == if ToLower(m.tag) == key then Trim(m.text) else LastText(ms, key)
  {
    assert (ms + [m])[..|ms|] == ms;
  }

  /** One turn of the extraction loop keeps the record equal to the last text of each
      key among the matches seen so far. */
  lemma FieldsAfterMatch(services: map<string, string>, seen: seq<RegexMatch>, m: RegexMatch)
    requires services.Keys == ServiceKeys
    requires forall key :: key in services ==> services[key] == LastText(seen, key)
    ensures var service := ToLower(m.tag);
            var next := if service in services then services[service := Trim(m.text)] else services;
            && next.Keys == ServiceKeys
            && forall key :: key in next ==> next[key] == LastText(seen + [m], key)
  {
    LastTextSnoc(seen, m);
    FieldUpdate(services, seen, m, Trim(m.text));
  }

  lemma FieldUpdate(services: map<string, string>, seen: seq<RegexMatch>, m: RegexMatch, text: string)
    requires services.Keys == ServiceKeys
    requires forall key :: key in services ==> services[key] == LastText(seen, key)
    requires forall key :: LastText(seen + [m], key) == if ToLower(m.tag) == key then text else LastText(seen, key)
    ensures var service := ToLower(m.tag);
            var next := if service in services then services[service := text] else services;
            && next.Keys == ServiceKeys
            && forall key :: key in next ==> next[key] == LastText(seen + [m], key)
  {
    var service := ToLower(m.tag);
    var next := if service in services then services[service := text] else services;
    forall key | key in next
      ensures next[key] == LastText(seen + [m], key)
    {
      if key != service {
        assert next[key] == services[key] == LastText(seen, key);
      }
    }
  }

  /** A later match for a key replaces what an earlier one gave it. */
  lemma LaterMatchOverwrites(ms: seq<RegexMatch>, m: RegexMatch, key: string)
    requires ToLower(m.tag) == key
    ensures LastText(ms + [m], key) == Trim(m.text)
  {
  }

  /** A key no match names keeps the empty string. */
  lemma {:induction false} UnmatchedKeyStaysEmpty(ms: seq<RegexMatch>, key: string)
    requires forall i :: 0 <= i < |ms| ==> ToLower(ms[i].tag) != key
    ensures LastText(ms, key) == ""
    decreases |ms|
  {
    if ms != [] {
      UnmatchedKeyStaysEmpty(ms[..|ms| - 1], key);
    }
  }

  /** Every extracted text is a trimmed piece of a single line that holds no `:`. */
  lemma {:induction false} ExtractedTextIsOneField(s: string, from: nat, key: string)
    requires from <= |s|
    ensures var t := LastText(AllMatches(s, from), key);
            && ':' !in t && '\n' !in t
            && (t == [] || (!IsWhitespace(t[0]) && !IsWhitespace(t[|t| - 1])))
  {
    var ms := AllMatches(s, from);
    AllMatchesArePatternMatches(s, from);
    forall i | 0 <= i < |ms|
      ensures ':' !in ms[i].text && '\n' !in ms[i].text
    {
      assert MatchAt(s, ms[i].index) == Some(ms[i]);
    }
    LastTextOfFields(ms, key);
  }

  lemma {:induction false} LastTextOfFields(ms: seq<RegexMatch>, key: string)
    requires forall i :: 0 <= i < |ms| ==> ':' !in ms[i].text && '\n' !in ms[i].text
    ensures var t := LastText(ms, key);
            && ':' !in t && '\n' !in t
            && (t == [] || (!IsWhitespace(t[0]) && !IsWhitespace(t[|t| - 1])))
    decreases |ms|
  {
    if ms != [] && ToLower(ms[|ms| - 1].tag) != key {
      LastTextOfFields(ms[..|ms| - 1], key);
    }
  }

  /** The `answer` dispatched with `CHANGE_DESCRIPTION`: the four-key record when more
      than one service is selected, otherwise the unsplit reply under the one service. */
  function Answer(selected: seq<string>, services: map<string, string>, content: string): (answer: map<string, string>)
    requires |selected| > 0
    ensures |selected| > 1 ==> answer == services
    ensures |selected| == 1 ==> answer.Keys == {selected[0]} && answer[selected[0]] == content
  {
    if |selected| > 1 then services else map[selected[0] := content]
  }

  // ---- keyword input ----

  /** The class `[\s,.;:]`. */
  predicate IsKeywordSeparator(c: char) {
    IsWhitespace(c) || c == ',' || c == '.' || c == ';' || c == ':'
  }

  /** Index of the first separator in `s`, or `|s|`. */
  function FirstSeparator(s: string): (i: nat)
    ensures i <= |s|
    ensures forall j :: 0 <= j < i ==> !IsKeywordSeparator(s[j])
    ensures i < |s| ==> IsKeywordSeparator(s[i])
  {
    if s == [] || IsKeywordSeparator(s[0]) then 0 else 1 + FirstSeparator(s[1..])
  }

  /** End of the separator run starting at `i`. */
  function SeparatorRunEnd(s: string, i: nat): (j: nat)
    requires i <= |s|
    ensures i <= j <= |s|
    ensures forall k :: i <= k < j ==> IsKeywordSeparator(s[k])
    ensures j == |s| || !IsKeywordSeparator(s[j])
    decreases |s| - i
  {
    if i < |s| && IsKeywordSeparator(s[i]) then SeparatorRunEnd(s, i + 1) else i
  }

  /** `s.split(/[\s,.;:]+/)`: the pieces between maximal separator runs. */
  function SplitPieces(s: string): (pieces: seq<string>)
    ensures |pieces| >= 1
    decreases |s|
  {
    var i := FirstSeparator(s);
    if i == |s| then [s]
    else [s[..i]] + SplitPieces(s[SeparatorRunEnd(s, i)..])
  }

  /** `.filter(Boolean)`: the non-empty pieces, in order. */
  function NonEmpty(pieces: seq<string>): (r: seq<string>)
    ensures forall i :: 0 <= i < |r| ==> r[i] != [] && r[i] in pieces
  {
    if pieces == [] then []
    else if pieces[0] == [] then NonEmpty(pieces[1..])
    else [pieces[0]] + NonEmpty(pieces[1..])
  }

  /** Filtering drops only empty pieces: every non-empty piece is kept as often as it occurs. */
  lemma {:induction false} NonEmptyKeepsEvery(pieces: seq<string>)
    ensures forall w :: w != [] ==> multiset(NonEmpty(pieces))[w] == multiset(pieces)[w]
    decreases |pieces|
  {
    if pieces != [] {
      NonEmptyKeepsEvery(pieces[1..]);
      assert pieces == [pieces[0]] + pieces[1..];
    }
  }

  /** Filtering keeps the order of the pieces: it works on each part of a list on its own. */
  lemma {:induction false} NonEmptyAppend(a: seq<string>, b: seq<string>)
    ensures NonEmpty(a + b) == NonEmpty(a) + NonEmpty(b)
    decreases |a|
  {
    if a == [] {
      assert a + b == b;
    } else {
      var head, tail := a[0], a[1..];
      assert a == [head] + tail;
      assert a + b == [head] + (tail + b);
      NonEmptyCons(head, tail + b);
      NonEmptyCons(head, tail);
      NonEmptyAppend(tail, b);
      if head != [] {
        ConsThenAppend(head, NonEmpty(tail), NonEmpty(b));
      }
    }
  }

  /** The keywords typed in `s`. */
  function Keywords(s: string): seq<string> {
    NonEmpty(SplitPieces(s))
  }

  function Flatten(ws: seq<string>): string {
    if ws == [] then [] else ws[0] + Flatten(ws[1..])
  }

  /** `s` with every separator removed. */
  function RemoveSeparators(s: string): (r: string)
    ensures forall c :: c in r ==> !IsKeywordSeparator(c)
  {
    if s == [] then []
    else if IsKeywordSeparator(s[0]) then RemoveSeparators(s[1..])
    else [s[0]] + RemoveSeparators(s[1..])
  }

  function JoinWithSpace(ws: seq<string>): string {
    if ws == [] then [] else if |ws| == 1 then ws[0] else ws[0] + " " + JoinWithSpace(ws[1..])
  }

  predicate IsKeyword(w: string) {
    w != [] && forall c :: c in w ==> !IsKeywordSeparator(c)
  }

  /** `s` with every maximal run of separators, those at either end included, replaced by
      one space; `inRun` says the previous character was a separator. */
  function RunsToSpaces(s: string, inRun: bool): string
    decreases |s|
  {
    if s == [] then []
    else if IsKeywordSeparator(s[0]) then (if inRun then "" else " ") + RunsToSpaces(s[1..], true)
    else [s[0]] + RunsToSpaces(s[1..], false)
  }

  /** The split cuts exactly at the maximal separator runs: the pieces (which hold no
      separator, by `SplitPiecesHaveNoSeparator`) joined by single spaces are the input with each run replaced by one space,
      an empty piece standing for a run at either end. */
  lemma {:induction false} SplitPiecesAtRuns(s: string)
    ensures JoinWithSpace(SplitPieces(s)) == RunsToSpaces(s, false)
    decreases |s|
  {
    var i := FirstSeparator(s);
    if i == |s| {
      assert SplitPieces(s) == [s];
      if s != [] {
        SpacesWord(s, |s|, false);
        assert s[..|s|] == s && s[|s|..] == [];
      }
    } else {
      var j := SeparatorRunEnd(s, i);
      var rest := s[j..];
      var w := s[..i];
      assert SplitPieces(s) == [w] + SplitPieces(rest);
      SplitPiecesAtRuns(rest);
      JoinCons(w, SplitPieces(rest));
      SpacesAroundCut(s, i, j);
    }
  }

  /** Text before the first separator run is copied, and that run becomes one space. */
  lemma SpacesAroundCut(s: string, i: nat, j: nat)
    requires i < j <= |s|
    requires forall k :: 0 <= k < i ==> !IsKeywordSeparator(s[k])
    requires forall k :: i <= k < j ==> IsKeywordSeparator(s[k])
    requires j == |s| || !IsKeywordSeparator(s[j])
    ensures RunsToSpaces(s, false) == s[..i] + " " + RunsToSpaces(s[j..], false)
  {
    SpacesRun(s, i, j);
    if i == 0 {
      assert s[0..] == s && s[..0] == [];
    } else {
      SpacesWord(s, i, false);
      ConcatAssoc(s[..i], " ", RunsToSpaces(s[j..], false));
    }
  }

  /** A run of keyword characters is copied as it is. */
  lemma {:induction false} SpacesWord(s: string, i: nat, inRun: bool)
    requires 0 < i <= |s|
    requires forall k :: 0 <= k < i ==> !IsKeywordSeparator(s[k])
    ensures RunsToSpaces(s, inRun) == s[..i] + RunsToSpaces(s[i..], false)
    decreases i
  {
    if i == 1 {
      assert s[..1] == [s[0]] && s[1..] == s[i..];
    } else {
      var t := s[1..];
      SpacesWord(t, i - 1, false);
      assert t[i - 1..] == s[i..];
      assert s[..i] == [s[0]] + t[..i - 1];
      ConcatAssoc([s[0]], t[..i - 1], RunsToSpaces(s[i..], false));
    }
  }

  /** A maximal run of separators becomes one space. */
  lemma SpacesRun(s: string, i: nat, j: nat)
    requires i < j <= |s|
    requires forall k :: i <= k < j ==> IsKeywordSeparator(s[k])
    requires j == |s| || !IsKeywordSeparator(s[j])
    ensures RunsToSpaces(s[i..], false) == " " + RunsToSpaces(s[j..], false)
  {
    assert s[i..][1..] == s[i + 1..];
    SpacesInRun(s, i + 1, j);
    assert j < |s| ==> s[j..][1..] == s[j + 1..];
  }

  lemma {:induction false} SpacesInRun(s: string, i: nat, j: nat)
    requires i <= j <= |s|
    requires forall k :: i <= k < j ==> IsKeywordSeparator(s[k])
    ensures RunsToSpaces(s[i..], true) == RunsToSpaces(s[j..], true)
    decreases j - i
  {
    if i < j {
      assert s[i..][1..] == s[i + 1..];
      SpacesInRun(s, i + 1, j);
    }
  }

  lemma {:induction false} RemoveSeparatorsOfKeyword(w: string)
    requires forall c :: c in w ==> !IsKeywordSeparator(c)
    ensures RemoveSeparators(w) == w
    decreases |w|
  {
    if w != [] {
      assert w[0] in w;
      assert forall c :: c in w[1..] ==> c in w;
      RemoveSeparatorsOfKeyword(w[1..]);
    }
  }

  lemma {:induction false} SplitPiecesHaveNoSeparator(s: string)
    ensures forall k :: 0 <= k < |SplitPieces(s)| ==> forall c :: c in SplitPieces(s)[k] ==> !IsKeywordSeparator(c)
    decreases |s|
  {
    var i := FirstSeparator(s);
    if i < |s| {
      var rest := s[SeparatorRunEnd(s, i)..];
      SplitPiecesHaveNoSeparator(rest);
      var pieces := SplitPieces(s);
      assert pieces == [s[..i]] + SplitPieces(rest);
      forall k | 0 <= k < |pieces|
        ensures forall c :: c in pieces[k] ==> !IsKeywordSeparator(c)
      {
        if k > 0 {
          assert pieces[k] == SplitPieces(rest)[k - 1];
        }
      }
    }
  }

  lemma {:induction false} FlattenSplitPieces(s: string)
    ensures Flatten(SplitPieces(s)) == RemoveSeparators(s)
    decreases |s|
  {
    var i := FirstSeparator(s);
    if i == |s| {
      RemoveSeparatorsOfKeyword(s);
      assert Flatten([s]) == s + Flatten([]);
    } else {
      var j := SeparatorRunEnd(s, i);
      var rest := s[j..];
      FlattenSplitPieces(rest);
      var pieces := [s[..i]] + SplitPieces(rest);
      assert SplitPieces(s) == pieces;
      assert pieces[1..] == SplitPieces(rest);
      assert Flatten(pieces) == s[..i] + Flatten(SplitPieces(rest));
      RemoveSeparatorsAroundRun(s, i, j);
    }
  }

  lemma {:induction false} RemoveSeparatorsAroundRun(s: string, i: nat, j: nat)
    requires i <= j <= |s|
    requires forall k :: 0 <= k < i ==> !IsKeywordSeparator(s[k])
    requires forall k :: i <= k < j ==> IsKeywordSeparator(s[k])
    ensures RemoveSeparators(s) == s[..i] + RemoveSeparators(s[j..])
    decreases j
  {
    if 0 < j {
      var t := s[1..];
      assert t[j - 1..] == s[j..];
      if i == 0 {
        RemoveSeparatorsAroundRun(t, 0, j - 1);
      } else {
        RemoveSeparatorsAroundRun(t, i - 1, j - 1);
        assert s[..i] == [s[0]] + t[..i - 1];
      }
    }
  }

  lemma {:induction false} FlattenNonEmpty(pieces: seq<string>)
    ensures Flatten(NonEmpty(pieces)) == Flatten(pieces)
    decreases |pieces|
  {
    if pieces != [] {
      FlattenNonEmpty(pieces[1..]);
      if pieces[0] != [] {
        assert ([pieces[0]] + NonEmpty(pieces[1..]))[1..] == NonEmpty(pieces[1..]);
      }
    }
  }

  /** The keywords are non-empty, hold no separator, and together keep every
      non-separator character of the input, in order. */
  lemma KeywordsCoverInput(s: string)
    ensures forall k :: 0 <= k < |Keywords(s)| ==> IsKeyword(Keywords(s)[k])
    ensures Flatten(Keywords(s)) == RemoveSeparators(s)
  {
    SplitPiecesHaveNoSeparator(s);
    FlattenSplitPieces(s);
    FlattenNonEmpty(SplitPieces(s));
  }

  lemma {:induction false} SplitPiecesOfJoin(ws: seq<string>)
    requires |ws| > 0
    requires forall k :: 0 <= k < |ws| ==> IsKeyword(ws[k])
    ensures SplitPieces(JoinWithSpace(ws)) == ws
    decreases |ws|
  {
    var w := ws[0];
    if |ws| == 1 {
      assert FirstSeparator(w) == |w|;
    } else {
      var rest := JoinWithSpace(ws[1..]);
      var s := w + " " + rest;
      assert JoinWithSpace(ws) == s;
      assert FirstSeparator(s) == |w| by {
        assert forall i :: 0 <= i < |w| ==> s[i] == w[i];
        assert s[|w|] == ' ';
      }
      SplitPiecesOfJoin(ws[1..]);
      assert ws[1] != [] && !IsKeywordSeparator(ws[1][0]) by {
        assert ws[1][0] in ws[1];
      }
      JoinStartsWith(ws[1..]);
      assert SeparatorRunEnd(s, |w|) == |w| + 1 by {
        assert s[|w| + 1] == rest[0];
      }
      assert s[..|w|] == w;
      assert s[|w| + 1..] == rest;
    }
  }

  lemma JoinStartsWith(ws: seq<string>)
    requires |ws| > 0 && ws[0] != []
    ensures |JoinWithSpace(ws)| > 0 && JoinWithSpace(ws)[0] == ws[0][0]
  {
  }

  /** Keywords typed with single spaces between them come back as typed. */
  lemma KeywordsOfJoin(ws: seq<string>)
    requires forall k :: 0 <= k < |ws| ==> IsKeyword(ws[k])
    ensures Keywords(JoinWithSpace(ws)) == ws
  {
    if ws == [] {
      assert FirstSeparator([]) == 0;
    } else {
      SplitPiecesOfJoin(ws);
      NonEmptyOfKeywords(ws);
    }
  }

  lemma {:induction false} NonEmptyOfKeywords(ws: seq<string>)
    requires forall k :: 0 <= k < |ws| ==> ws[k] != []
    ensures NonEmpty(ws) == ws
    decreases |ws|
  {
    if ws != [] {
      NonEmptyOfKeywords(ws[1..]);
    }
  }

  /** `s` as its keywords read: every maximal run of separators between two keyword
      characters becomes one space, and the runs at either end are dropped. `started`
      says a keyword character has been kept, `pending` that a run has been met since. */
  function CollapseSeparators(s: string, pending: bool, started: bool): string
    decreases |s|
  {
    if s == [] then []
    else if IsKeywordSeparator(s[0]) then CollapseSeparators(s[1..], started, started)
    else (if pending then " " else "") + [s[0]] + CollapseSeparators(s[1..], false, true)
  }

  /** The split breaks exactly at separator runs: the keywords joined by single spaces
      are the input with each inner run collapsed to one space and the outer runs
      dropped, and that text splits back into the same keywords. */
  lemma KeywordsSplitAtRuns(s: string)
    ensures JoinWithSpace(Keywords(s)) == CollapseSeparators(s, false, false)
    ensures Keywords(CollapseSeparators(s, false, false)) == Keywords(s)
  {
    KeywordsCollapse(s, false);
    KeywordsCoverInput(s);
    KeywordsOfJoin(Keywords(s));
  }

  lemma {:induction false} KeywordsCollapse(s: string, started: bool)
    ensures CollapseSeparators(s, started, started) ==
              if Keywords(s) == [] then [] else (if started then " " else "") + JoinWithSpace(Keywords(s))
    decreases |s|
  {
    var i := FirstSeparator(s);
    if i == |s| {
      assert SplitPieces(s) == [s] + [];
      NonEmptyCons(s, []);
      if s != [] {
        assert Keywords(s) == [s];
        CollapseWord(s, |s|, started, started);
        assert s[..|s|] == s && s[|s|..] == [];
      }
    } else {
      var j := SeparatorRunEnd(s, i);
      var rest := s[j..];
      var w := s[..i];
      assert SplitPieces(s) == [w] + SplitPieces(rest);
      NonEmptyCons(w, SplitPieces(rest));
      if i == 0 {
        assert s[0..] == s;
        CollapseRun(s, 0, j, started, started);
        KeywordsCollapse(rest, started);
      } else {
        CollapseWord(s, i, started, started);
        CollapseRun(s, i, j, false, true);
        KeywordsCollapse(rest, true);
        var ks := Keywords(rest);
        assert Keywords(s) == [w] + ks;
        JoinCons(w, ks);
        var pre: string := if started then " " else "";
        if ks != [] {
          ConcatAssoc(w, " ", JoinWithSpace(ks));
          ConcatAssoc(pre, w, " " + JoinWithSpace(ks));
        } else {
          assert (pre + w) + [] == pre + w;
        }
      }
    }
  }

  /** A run of keyword characters is copied, after the space a pending run asks for. */
  lemma {:induction false} CollapseWord(s: string, i: nat, pending: bool, started: bool)
    requires 0 < i <= |s|
    requires forall k :: 0 <= k < i ==> !IsKeywordSeparator(s[k])
    ensures CollapseSeparators(s, pending, started) ==
              (if pending then " " else "") + s[..i] + CollapseSeparators(s[i..], false, true)
    decreases i
  {
    var pre: string := if pending then " " else "";
    if i == 1 {
      assert s[..1] == [s[0]] && s[1..] == s[i..];
    } else {
      var t := s[1..];
      CollapseWord(t, i - 1, false, true);
      assert t[i - 1..] == s[i..];
      assert s[..i] == [s[0]] + t[..i - 1];
      var tail := CollapseSeparators(s[i..], false, true);
      assert CollapseSeparators(t, false, true) == [] + t[..i - 1] + tail;
      assert [] + t[..i - 1] == t[..i - 1];
      ConcatAssoc(pre + [s[0]], t[..i - 1], tail);
      ConcatAssoc(pre, [s[0]], t[..i - 1]);
    }
  }

  /** A run of separators only records that a keyword may need a space before it. */
  lemma {:induction false} CollapseRun(s: string, i: nat, j: nat, pending: bool, started: bool)
    requires i < j <= |s|
    requires forall k :: i <= k < j ==> IsKeywordSeparator(s[k])
    ensures CollapseSeparators(s[i..], pending, started) == CollapseSeparators(s[j..], started, started)
    decreases j - i
  {
    assert s[i..][1..] == s[i + 1..];
    if i + 1 < j {
      CollapseRun(s, i + 1, j, started, started);
    }
  }

  lemma ConcatAssoc(a: string, b: string, c: string)
    ensures (a + b) + c == a + (b + c)
  {
  }

  lemma NonEmptyCons(w: string, pieces: seq<string>)
    ensures NonEmpty([w] + pieces) == if w == [] then NonEmpty(pieces) else [w] + NonEmpty(pieces)
  {
    assert ([w] + pieces)[1..] == pieces;
  }

  lemma JoinCons(w: string, ws: seq<string>)
    ensures JoinWithSpace([w] + ws) == if ws == [] then w else w + " " + JoinWithSpace(ws)
  {
    assert ([w] + ws)[1..] == ws;
  }

  /** What the screen dispatches to its reducer. */
  datatype Action =
    | ChangeKeyword(word: string)
    | DayLimitNumber(remaining: int)
    | DayLimit
    | ChangeDescription(answer: map<string, string>)

  /** `handleInputKeywords(keyword)`: the actions dispatched, and whether the input was
      cleared. At most `maxKeywords` keywords are kept, the first ones. */
  method HandleInputKeywords(keyword: string, maxKeywords: nat) returns (dispatched: seq<Action>, cleared: bool)
    ensures keyword == [] ==> dispatched == [] && !cleared
    ensures keyword != [] ==> cleared
    ensures keyword != [] ==> |dispatched| == if |Keywords(keyword)| > maxKeywords then maxKeywords else |Keywords(keyword)|
    ensures forall i :: 0 <= i < |dispatched| ==> dispatched[i] == ChangeKeyword(Keywords(keyword)[i])
  {
    dispatched := [];
    cleared := false;
    if keyword == [] {
      return;
    }
    var keywordsArray := Keywords(keyword);
    if |keywordsArray| > maxKeywords {
      keywordsArray := keywordsArray[..maxKeywords];
    }
    var i := 0;
    while i < |keywordsArray|
      invariant 0 <= i <= |keywordsArray|
      invariant |dispatched| == i
      invariant forall k :: 0 <= k < i ==> dispatched[k] == ChangeKeyword(keywordsArray[k])
    {
      dispatched := dispatched + [ChangeKeyword(keywordsArray[i])];
      i := i + 1;
    }
    cleared := true;
  }

  // ---- opened services ----

  /** `prev.filter((s) => s !== service)`. */
  function Without(xs: seq<string>, x: string): (r: seq<string>)
    ensures x !in r
    ensures forall y :: y != x ==> multiset(r)[y] == multiset(xs)[y]
    ensures |r| + multiset(xs)[x] == |xs|
  {
    if xs == [] then []
    else
      assert xs == [xs[0]] + xs[1..];
      if xs[0] == x then Without(xs[1..], x)
      else [xs[0]] + Without(xs[1..], x)
  }

  /** Removing keeps the order of the other elements. */
  lemma {:induction false} WithoutAppend(a: seq<string>, b: seq<string>, x: string)
    ensures Without(a + b, x) == Without(a, x) + Without(b, x)
    decreases |a|
  {
    if a == [] {
      assert a + b == b;
    } else {
      var head, tail := a[0], a[1..];
      assert a == [head] + tail;
      assert a + b == [head] + (tail + b);
      WithoutCons(head, tail + b, x);
      WithoutCons(head, tail, x);
      WithoutAppend(tail, b, x);
      if head != x {
        ConsThenAppend(head, Without(tail, x), Without(b, x));
      }
    }
  }

  lemma WithoutCons(head: string, tail: seq<string>, x: string)
    ensures Without([head] + tail, x) == if head == x then Without(tail, x) else [head] + Without(tail, x)
  {
    assert ([head] + tail)[1..] == tail;
  }

  lemma ConsThenAppend(head: string, tail: seq<string>, rest: seq<string>)
    ensures [head] + (tail + rest) == ([head] + tail) + rest
  {
  }


  lemma {:induction false} WithoutAbsent(xs: seq<string>, x: string)
    requires x !in xs
    ensures Without(xs, x) == xs
    decreases |xs|
  {
    if xs != [] {
      assert forall y :: y in xs[1..] ==> y in xs;
      WithoutAbsent(xs[1..], x);
    }
  }

  /** `toggleServiceVisibility(service)` on the opened list. */
  function Toggle(open: seq<string>, service: string): (r: seq<string>)
    ensures service in r <==> service !in open
    ensures forall y :: y != service ==> multiset(r)[y] == multiset(open)[y]
    ensures service !in open ==> |r| == |open| + 1 && r[..|open|] == open
  {
    if service in open then Without(open, service) else open + [service]
  }

  /** Opening and then closing a service gives back the list as it was. */
  lemma ToggleTwice(open: seq<string>, service: string)
    requires service !in open
    ensures Toggle(Toggle(open, service), service) == open
  {
    WithoutAppend(open, [service], service);
    WithoutAbsent(open, service);
  }

  // ---- fetchChatGPTResponse ----

  /** What `fetchChatGPTResponse` does, in the order it does it: the quota check with the
      number of selected services, `DAY_LIMIT` on a refusal, the early return on an empty
      selection, the request, and `CHANGE_DESCRIPTION` with the extracted answer.
      `reply` is the content of the model's reply, `None` when the request throws. */
  method FetchChatGPTResponse(db: UserRecordStore, currentUser: Option<string>, serverTime: Option<Instant>,
                              deviceTime: Instant, fault: StoreFault, selected: seq<string>,
                              keywords: seq<string>, reply: Option<string>)
    returns (actions: seq<Action>, requested: bool, generated: bool)
    requires db.Valid()
    modifies db
    ensures db.Valid()
    ensures var gate := UsageGate(old(db.users), currentUser, UsageDate(serverTime, deviceTime), |selected|, fault);
            && db.users == gate.users
            && (requested <==> gate.allowed && |selected| > 0 && |keywords| > 0)
            && (generated <==> requested && reply.Some?)
            && actions == (if gate.dayLimitNumber.Some? then [DayLimitNumber(gate.dayLimitNumber.value)] else [])
                          + (if !gate.allowed then [DayLimit] else [])
                          + (if generated then [ChangeDescription(Answer(selected, ServicesOf(reply.value), reply.value))]
                             else [])
            && (generated && |selected| == 1 ==>
                  actions[|actions| - 1] == ChangeDescription(map[selected[0] := reply.value]))
            && (generated && |selected| > 1 ==>
                  var answer := actions[|actions| - 1].answer;
                  && answer.Keys == ServiceKeys
                  && forall key :: key in answer ==> answer[key] == LastText(AllMatches(reply.value, 0), key))
  {
    var allowed, headroom := db.CheckApiUsageLimit(currentUser, |selected|, serverTime, deviceTime, fault);
    actions := if headroom.Some? then [DayLimitNumber(headroom.value)] else [];
    requested, generated := false, false;
    if !allowed {
      actions := actions + [DayLimit];
      return;
    }
    if |selected| == 0 || |keywords| == 0 {
      return;
    }
    requested := true;
    if reply.None? {
      return;
    }
    var services := ExtractServices(reply.value);
    ServicesOfIsTheRecord(services, reply.value);
    var answer := Answer(selected, services, reply.value);
    AnswerOfReply(selected, reply.value);
    actions := actions + [ChangeDescription(answer)];
    generated := true;
  }

  /** The answer for one service is the whole reply under its name; for several it is the
      four-key record read from the reply. */
  lemma AnswerOfReply(selected: seq<string>, content: string)
    requires |selected| > 0
    ensures var answer := Answer(selected, ServicesOf(content), content);
            && (|selected| == 1 ==> answer == map[selected[0] := content])
            && (|selected| > 1 ==>
                  && answer.Keys == ServiceKeys
                  && forall key :: key in answer ==> answer[key] == LastText(AllMatches(content, 0), key))
  {
  }
}

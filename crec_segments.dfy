/**
 * Splitting a record's sentences into speaker segments (`find_segments` in
 * workers/crec_parser.py). A sentence names a speaker when it contains the
 * speaker's name; failing that, the best fuzzy match is taken when its score
 * exceeds the threshold. The fuzzy scorer and the sentence splitter are
 * parameters: the first is a function of (sentence, speaker), the second has
 * already produced the sentence sequence.
 */
module CrecSegments {
  import opened Wrappers
  import opened Text

  /** A fuzzy match must score strictly more than this to change the speaker. */
  const ApproxMatchThreshold: int := 90

  /** The fuzzy score of a speaker's name against a sentence, out of 100. */
  type Scorer = (string, string) -> int

  /** A segment as emitted: the speaker (None before any is found) and the joined text. */
  datatype Segment = Segment(speaker: Option<string>, text: string)

  /** The first speaker, in collection order, whose name occurs in the sentence. */
  function FirstContained(speakers: seq<string>, sent: string): (r: Option<string>)
    ensures r.None? <==> forall j :: 0 <= j < |speakers| ==> !Contains(sent, speakers[j])
    ensures r.Some? ==> exists i :: 0 <= i < |speakers| && speakers[i] == r.value && Contains(sent, r.value)
                          && forall j :: 0 <= j < i ==> !Contains(sent, speakers[j])
  {
    if speakers == [] then None
    else if Contains(sent, speakers[0]) then Some(speakers[0])
    else
      var r := FirstContained(speakers[1..], sent);
      FirstContainedShift(speakers, sent, r);
      r
  }

  lemma FirstContainedShift(speakers: seq<string>, sent: string, r: Option<string>)
    requires speakers != [] && !Contains(sent, speakers[0])
    requires r.Some? ==> exists i :: 0 <= i < |speakers[1..]| && speakers[1..][i] == r.value && Contains(sent, r.value)
                          && forall j :: 0 <= j < i ==> !Contains(sent, speakers[1..][j])
    ensures r.Some? ==> exists i :: 0 <= i < |speakers| && speakers[i] == r.value && Contains(sent, r.value)
                          && forall j :: 0 <= j < i ==> !Contains(sent, speakers[j])
  {
    if r.Some? {
      var i :| 0 <= i < |speakers[1..]| && speakers[1..][i] == r.value && Contains(sent, r.value)
               && forall j :: 0 <= j < i ==> !Contains(sent, speakers[1..][j]);
      assert speakers[i + 1] == r.value;
      assert forall j :: 1 <= j < i + 1 ==> speakers[j] == speakers[1..][j - 1];
    }
  }

  /** `process.extractOne`: the first speaker with the highest score. */
  function BestMatch(sent: string, speakers: seq<string>, score: Scorer): (b: string)
    requires speakers != []
    ensures forall s :: s in speakers ==> score(sent, s) <= score(sent, b)
    ensures exists i :: 0 <= i < |speakers| && speakers[i] == b
                        && forall j :: 0 <= j < i ==> score(sent, speakers[j]) < score(sent, b)
  {
    if |speakers| == 1 then speakers[0]
    else
      var init := speakers[..|speakers| - 1];
      var last := speakers[|speakers| - 1];
      assert speakers == init + [last];
      var b := BestMatch(sent, init, score);
      if score(sent, last) > score(sent, b) then last
      else
        var i :| 0 <= i < |init| && init[i] == b && forall j :: 0 <= j < i ==> score(sent, init[j]) < score(sent, b);
        assert speakers[i] == b;
        b
  }

  /**
   * The speaker current after reading `sent`: a speaker named in it, else the
   * best fuzzy match scoring above the threshold, else the one before.
   */
  function NextSpeaker(sent: string, speakers: seq<string>, current: Option<string>, score: Scorer): (r: Option<string>)
    requires speakers != []
    ensures FirstContained(speakers, sent).Some? ==> r == FirstContained(speakers, sent)
    ensures FirstContained(speakers, sent).None? ==>
      r == current || (r.Some? && r.value in speakers && score(sent, r.value) > ApproxMatchThreshold
                       && forall s :: s in speakers ==> score(sent, s) <= score(sent, r.value))
    ensures FirstContained(speakers, sent).None? && score(sent, BestMatch(sent, speakers, score)) > ApproxMatchThreshold ==>
      r == Some(BestMatch(sent, speakers, score))
    ensures FirstContained(speakers, sent).None? && score(sent, BestMatch(sent, speakers, score)) <= ApproxMatchThreshold ==>
      r == current
    ensures (forall s :: s in speakers ==> !Contains(sent, s) && score(sent, s) <= ApproxMatchThreshold) ==> r == current
    ensures r == current || r.value in speakers
  {
    match FirstContained(speakers, sent)
    case Some(s) => Some(s)
    case None =>
      var best := BestMatch(sent, speakers, score);
      if score(sent, best) > ApproxMatchThreshold then Some(best) else current
  }

  /** A flushed group of sentences, before its text is joined. */
  datatype Group = Group(speaker: Option<string>, sentences: seq<string>)

  /** The loop state: `previous`, `current`, the pending `sents`, and the groups flushed so far. */
  datatype SegState = SegState(previous: Option<string>, current: Option<string>, sents: seq<string>, groups: seq<Group>)

  /** Append the pending sentences as one group, when there are any. */
  function Flush(groups: seq<Group>, speaker: Option<string>, sents: seq<string>): seq<Group> {
    if sents != [] then groups + [Group(speaker, sents)] else groups
  }

  /** One iteration of the loop over sentences. */
  function Step(st: SegState, sent: string, speakers: seq<string>, score: Scorer): SegState
    requires speakers != []
  {
    var cur := NextSpeaker(sent, speakers, st.current, score);
    if st.previous != cur then SegState(cur, cur, [], Flush(st.groups, st.previous, st.sents))
    else SegState(st.previous, cur, st.sents + [sent], st.groups)
  }

  /** The state after reading all of `sents`. */
  function Run(sents: seq<string>, speakers: seq<string>, score: Scorer): SegState
    requires speakers != []
  {
    if sents == [] then SegState(None, None, [], [])
    else Step(Run(sents[..|sents| - 1], speakers, score), sents[|sents| - 1], speakers, score)
  }

  /** The groups `find_segments` emits, before joining. */
  function Groups(sents: seq<string>, speakers: seq<string>, score: Scorer): seq<Group>
    requires speakers != []
  {
    var st := Run(sents, speakers, score);
    Flush(st.groups, st.previous, st.sents)
  }

  /** Each group becomes a segment whose text is its sentences joined by single spaces. */
  function Render(groups: seq<Group>): (segments: seq<Segment>)
    ensures |segments| == |groups|
    ensures forall i :: 0 <= i < |groups| ==> segments[i] == Segment(groups[i].speaker, Join(" ", groups[i].sentences))
  {
    if groups == [] then []
    else Render(groups[..|groups| - 1]) + [Segment(groups[|groups| - 1].speaker, Join(" ", groups[|groups| - 1].sentences))]
  }

  /** What `find_segments` returns. */
  function SegmentsOf(sents: seq<string>, speakers: seq<string>, score: Scorer): seq<Segment> {
    if speakers == [] then [] else Render(Groups(sents, speakers, score))
  }

  /** `find_segments`. */
  method FindSegments(sents: seq<string>, speakers: seq<string>, score: Scorer) returns (segments: seq<Segment>)
    ensures segments == SegmentsOf(sents, speakers, score)
  {
    if speakers == [] {
      return [];
    }
    var previous: Option<string> := None;
    var current: Option<string> := None;
    var pending: seq<string> := [];
    segments := [];
    var i := 0;
    while i < |sents|
      invariant 0 <= i <= |sents|
      invariant Run(sents[..i], speakers, score) == SegState(previous, current, pending, Run(sents[..i], speakers, score).groups)
      invariant segments == Render(Run(sents[..i], speakers, score).groups)
    {
      assert sents[..i + 1][..i] == sents[..i];
      var sent := sents[i];
      var speaker := FirstContained(speakers, sent);
      if speaker.Some? {
        current := speaker;
      } else {
        var best := BestMatch(sent, speakers, score);
        if score(sent, best) > ApproxMatchThreshold {
          current := Some(best);
        }
      }
      if previous != current {
        if pending != [] {
          segments := segments + [Segment(previous, Join(" ", pending))];
        }
        previous := current;
        pending := [];
      } else {
        pending := pending + [sent];
      }
      i := i + 1;
    }
    assert sents[..i] == sents;
    if pending != [] {
      segments := segments + [Segment(previous, Join(" ", pending))];
    }
  }

  /** The speaker current after each prefix of the sentences, computed on its own. */
  function Cur(sents: seq<string>, speakers: seq<string>, score: Scorer): Option<string>
    requires speakers != []
  {
    if sents == [] then None
    else NextSpeaker(sents[|sents| - 1], speakers, Cur(sents[..|sents| - 1], speakers, score), score)
  }

  /** The sentences that did not change the current speaker, in input order. */
  function Kept(sents: seq<string>, speakers: seq<string>, score: Scorer): (r: seq<string>)
    requires speakers != []
    ensures |r| <= |sents|
    ensures forall s :: s in r ==> s in sents
  {
    if sents == [] then []
    else
      var init := sents[..|sents| - 1];
      var last := sents[|sents| - 1];
      assert sents == init + [last];
      Kept(init, speakers, score)
        + (if Cur(sents, speakers, score) == Cur(init, speakers, score) then [last] else [])
  }

  /**
   * The kept sentences, each paired with the speaker current when it was
   * read (the sentence did not change it).
   */
  function KeptWithSpeaker(sents: seq<string>, speakers: seq<string>, score: Scorer): seq<(Option<string>, string)>
    requires speakers != []
  {
    if sents == [] then []
    else
      var init := sents[..|sents| - 1];
      var cur := Cur(sents, speakers, score);
      KeptWithSpeaker(init, speakers, score)
        + (if cur == Cur(init, speakers, score) then [(cur, sents[|sents| - 1])] else [])
  }

  /** Each of the sentences, paired with the speaker they are attributed to. */
  function Label(speaker: Option<string>, sentences: seq<string>): (r: seq<(Option<string>, string)>)
    ensures |r| == |sentences|
    ensures forall i :: 0 <= i < |sentences| ==> r[i] == (speaker, sentences[i])
  {
    seq(|sentences|, i requires 0 <= i < |sentences| => (speaker, sentences[i]))
  }

  /** Every sentence of the groups, in order, paired with its group's speaker. */
  function Attributed(groups: seq<Group>): seq<(Option<string>, string)> {
    if groups == [] then []
    else Attributed(groups[..|groups| - 1]) + Label(groups[|groups| - 1].speaker, groups[|groups| - 1].sentences)
  }

  /**
   * Pending sentences are attributed to `previous` when flushed: the groups
   * flushed so far, with the pending sentences under `previous`, are the kept
   * sentences each under the speaker current when it was read.
   */
  lemma {:induction false} RunAttribution(sents: seq<string>, speakers: seq<string>, score: Scorer)
    requires speakers != []
    ensures var st := Run(sents, speakers, score);
      Attributed(st.groups) + Label(st.previous, st.sents) == KeptWithSpeaker(sents, speakers, score)
  {
    if sents != [] {
      var init := sents[..|sents| - 1];
      var last := sents[|sents| - 1];
      RunAttribution(init, speakers, score);
      RunSpeaker(init, speakers, score);
      var prev := Run(init, speakers, score);
      var cur := NextSpeaker(last, speakers, prev.current, score);
      if prev.previous != cur {
        if prev.sents != [] {
          var gs := prev.groups + [Group(prev.previous, prev.sents)];
          assert gs[..|gs| - 1] == prev.groups;
        }
        assert Label(cur, []) == [];
      } else {
        assert Label(prev.previous, prev.sents + [last]) == Label(prev.previous, prev.sents) + [(prev.previous, last)];
      }
    }
  }

  /**
   * `find_segments` attributes every kept sentence to the speaker current
   * when it was read: listing each group's sentences under the group's
   * speaker gives the kept sentences, in order, each under that speaker.
   */
  lemma GroupsAttributed(sents: seq<string>, speakers: seq<string>, score: Scorer)
    requires speakers != []
    ensures Attributed(Groups(sents, speakers, score)) == KeptWithSpeaker(sents, speakers, score)
  {
    RunAttribution(sents, speakers, score);
    var st := Run(sents, speakers, score);
    if st.sents != [] {
      var gs := Groups(sents, speakers, score);
      assert gs[..|gs| - 1] == st.groups;
    } else {
      assert Label(st.previous, st.sents) == [];
    }
  }

  /** All sentences of the groups, in order. */
  function Flatten(groups: seq<Group>): seq<string> {
    if groups == [] then [] else Flatten(groups[..|groups| - 1]) + groups[|groups| - 1].sentences
  }

  /** Every group is non-empty, and names no one or one of the speakers. */
  predicate WellFormedGroups(groups: seq<Group>, speakers: seq<string>) {
    forall i :: 0 <= i < |groups| ==>
      groups[i].sentences != [] && (groups[i].speaker.None? || groups[i].speaker.value in speakers)
  }

  /**
   * The loop keeps `previous` and `current` equal to the speaker found so
   * far; the flushed and pending sentences are exactly the kept ones; there
   * are no more groups and pending sentences than sentences read.
   */
  lemma {:induction false} RunInvariant(sents: seq<string>, speakers: seq<string>, score: Scorer)
    requires speakers != []
    ensures var st := Run(sents, speakers, score);
      && st.previous == Cur(sents, speakers, score)
      && st.current == st.previous
      && (st.current.None? || st.current.value in speakers)
      && Flatten(st.groups) + st.sents == Kept(sents, speakers, score)
      && WellFormedGroups(st.groups, speakers)
      && |st.groups| + |st.sents| <= |sents|
  {
    RunSpeaker(sents, speakers, score);
    if sents != [] {
      var init := sents[..|sents| - 1];
      var last := sents[|sents| - 1];
      RunInvariant(init, speakers, score);
      var prev := Run(init, speakers, score);
      var cur := NextSpeaker(last, speakers, prev.current, score);
      if prev.previous != cur && prev.sents != [] {
        var g := Group(prev.previous, prev.sents);
        assert Flatten(prev.groups + [g]) == Flatten(prev.groups) + prev.sents by {
          assert (prev.groups + [g])[..|prev.groups|] == prev.groups;
        }
      } else if prev.previous == cur {
        AppendAssoc(Flatten(prev.groups), prev.sents, [last]);
      }
    }
  }

  /** The loop keeps `previous` and `current` equal to the speaker found so far, which is no one or one of the speakers. */
  lemma {:induction false} RunSpeaker(sents: seq<string>, speakers: seq<string>, score: Scorer)
    requires speakers != []
    ensures var st := Run(sents, speakers, score);
      && st.previous == Cur(sents, speakers, score)
      && st.current == st.previous
      && (st.current.None? || st.current.value in speakers)
  {
    if sents != [] {
      RunSpeaker(sents[..|sents| - 1], speakers, score);
    }
  }

  /**
   * `find_segments` emits the kept sentences, in input order and each once,
   * grouped into at most as many segments as there are sentences; every
   * segment is attributed to no one or to one of the speakers; with no
   * speakers it emits nothing.
   */
  lemma SegmentsProperties(sents: seq<string>, speakers: seq<string>, score: Scorer)
    ensures speakers == [] ==> SegmentsOf(sents, speakers, score) == []
    ensures speakers != [] ==> Flatten(Groups(sents, speakers, score)) == Kept(sents, speakers, score)
    ensures |SegmentsOf(sents, speakers, score)| <= |sents|
    ensures forall seg :: seg in SegmentsOf(sents, speakers, score) ==> seg.speaker.None? || seg.speaker.value in speakers
  {
    if speakers != [] {
      RunInvariant(sents, speakers, score);
      var st := Run(sents, speakers, score);
      var gs := Groups(sents, speakers, score);
      if st.sents != [] {
        assert gs[..|st.groups|] == st.groups;
      }
      assert WellFormedGroups(gs, speakers);
      forall seg | seg in SegmentsOf(sents, speakers, score)
        ensures seg.speaker.None? || seg.speaker.value in speakers
      {
        var i :| 0 <= i < |gs| && Render(gs)[i] == seg;
      }
    }
  }

  /** Joining non-empty parts gives non-empty text. */
  lemma JoinNonEmpty(sep: string, parts: seq<string>)
    requires parts != [] && parts[0] != ""
    ensures Join(sep, parts) != ""
  {
    if |parts| > 1 {
      assert |Join(sep, parts)| >= |parts[0]|;
    }
  }

  /** Every sentence in a flattened group list is one of the groups' sentences, and back. */
  lemma {:induction false} FlattenMembers(groups: seq<Group>, i: nat, s: string)
    requires i < |groups| && s in groups[i].sentences
    ensures s in Flatten(groups)
  {
    var init := groups[..|groups| - 1];
    if i < |groups| - 1 {
      FlattenMembers(init, i, s);
      assert init[i] == groups[i];
    }
  }

  /** When the sentence splitter yields no empty sentence, every segment has text. */
  lemma SegmentTextsNonEmpty(sents: seq<string>, speakers: seq<string>, score: Scorer)
    requires forall i :: 0 <= i < |sents| ==> sents[i] != ""
    ensures forall seg :: seg in SegmentsOf(sents, speakers, score) ==> seg.text != ""
  {
    if speakers != [] {
      SegmentsProperties(sents, speakers, score);
      RunInvariant(sents, speakers, score);
      var gs := Groups(sents, speakers, score);
      var st := Run(sents, speakers, score);
      assert WellFormedGroups(gs, speakers) by {
        if st.sents != [] {
          assert gs[..|st.groups|] == st.groups;
        }
      }
      forall seg | seg in SegmentsOf(sents, speakers, score)
        ensures seg.text != ""
      {
        var i :| 0 <= i < |gs| && Render(gs)[i] == seg;
        var first := gs[i].sentences[0];
        FlattenMembers(gs, i, first);
        assert first in sents;
        JoinNonEmpty(" ", gs[i].sentences);
      }
    }
  }
}

/** The questions a walk answers, and the facts its events amount to. */
module WalkFacts {
  import opened Basics
  import opened FsFacts
  import opened Ids
  import opened WalkSpec
  import opened Tally
  import Lex

  const DEFAULT_MAX_HITS := 20_000
  const DEFAULT_MAX_KEYS := 16_384

  /** A row-recording question. */
  datatype Interest = Interest(
    name: ID, matches: FileInfo -> bool, row: Option<FileInfo -> FSRow>, maxHits: int)
  {
    function MaxHits(): nat { if maxHits <= 0 then DEFAULT_MAX_HITS else maxHits }
    function Row(fi: FileInfo): FSRow { if row.None? then DefaultRow(fi) else row.value(fi) }
  }

  /** An aggregating question. */
  datatype Question = Question(name: ID, key: FileInfo -> Option<nat>, maxKeys: int) {
    function MaxKeys(): nat { if maxKeys <= 0 then DEFAULT_MAX_KEYS else maxKeys }
  }

  /** A name that cannot become a fact ID: empty, or holding a separator. */
  predicate BadName(id: ID) {
    var name := id.name;
    name == "" || '.' in name || '/' in name || ' ' in name || '\t' in name
  }

  function NewMatches(i: Interest, roots: seq<ID>): FSMatches {
    FSMatches(i.name, roots, [], false, [], 0, 0)
  }

  function NewTally(q: Question, roots: seq<ID>): FSTally {
    FSTally(q.name, roots, [], false, [], 0, 0, 0)
  }

  /** What one event does to one interest's fact. */
  function Answer(i: Interest, f: FSMatches, e: Event): FSMatches {
    match e
    case Listed(_) => f
    case Cut(reason) => f.MarkTruncated(reason)
    case Seen(fi) =>
      if !i.matches(fi) then f
      else if |f.rows| >= i.MaxHits() then f.(overflow := f.overflow + 1).MarkTruncated(TRUNC_MAX_HITS)
      else f.(rows := f.rows + [i.Row(fi)])
  }

  function Answers(i: Interest, roots: seq<ID>, events: seq<Event>): FSMatches {
    if events == [] then NewMatches(i, roots)
    else Answer(i, Answers(i, roots, events[..|events| - 1]), events[|events| - 1])
  }

  /** The folds one tally makes over the events. */
  function Folds(q: Question, events: seq<Event>): seq<Folded> {
    if events == [] then []
    else
      var h, e := Folds(q, events[..|events| - 1]), events[|events| - 1];
      if e.Seen? && q.key(e.fi).Some? then h + [Folded(q.key(e.fi).value, e.fi)] else h
  }

  /** What one event does to one tally's marks; h is the history with the event in it. */
  function Mark(q: Question, f: FSTally, h: seq<Folded>, e: Event): FSTally {
    match e
    case Listed(_) => f
    case Cut(reason) => f.MarkTruncated(reason)
    case Seen(fi) =>
      if q.key(fi).Some? && q.key(fi).value !in Admitted(h, q.MaxKeys()) then f.MarkTruncated(TRUNC_MAX_KEYS) else f
  }

  function Marks(q: Question, roots: seq<ID>, events: seq<Event>): FSTally {
    if events == [] then NewTally(q, roots)
    else Mark(q, Marks(q, roots, events[..|events| - 1]), Folds(q, events), events[|events| - 1])
  }

  function RowPath(r: FSRow): string { r.path.name }

  /** The inodes one interest was offered and matched, in walk order. */
  function Matched(i: Interest, events: seq<Event>): seq<FileInfo> {
    if events == [] then []
    else
      var m, e := Matched(i, events[..|events| - 1]), events[|events| - 1];
      if e.Seen? && i.matches(e.fi) then m + [e.fi] else m
  }

  function RowsOf(i: Interest, fis: seq<FileInfo>): (r: seq<FSRow>)
    ensures |r| == |fis| && forall n | 0 <= n < |fis| :: r[n] == i.Row(fis[n])
  {
    seq(|fis|, n requires 0 <= n < |fis| => i.Row(fis[n]))
  }

  function Min(a: nat, b: nat): nat { if a < b then a else b }

  /** A fact keeps the first MaxHits matches, counts the rest, and is truncated exactly
   * when a walk limit fired or a match was dropped. */
  lemma {:induction false} FactIsExact(i: Interest, roots: seq<ID>, events: seq<Event>)
    ensures var f, m := Answers(i, roots, events), Matched(i, events);
            && f.rows == RowsOf(i, m[..Min(|m|, i.MaxHits())])
            && |f.rows| + f.overflow == |m| && |f.rows| <= i.MaxHits()
            && (f.truncated <==> |m| > i.MaxHits() || exists r :: Cut(r) in events)
            && (forall r :: r in f.reasons <==> Cut(r) in events || (r == TRUNC_MAX_HITS && |m| > i.MaxHits()))
  {
    if events != [] {
      var p, e := events[..|events| - 1], events[|events| - 1];
      assert events == p + [e];
      FactIsExact(i, roots, p);
      var m, m' := Matched(i, p), Matched(i, events);
      if e.Seen? && i.matches(e.fi) {
        if |m| < i.MaxHits() {
          assert m[..Min(|m|, i.MaxHits())] == m;
          assert m'[..Min(|m'|, i.MaxHits())] == m + [e.fi];
        } else {
          assert m'[..i.MaxHits()] == m[..i.MaxHits()];
        }
      }
      forall r ensures Cut(r) in events <==> Cut(r) in p || e == Cut(r) {}
      if e.Cut? { assert Cut(e.reason) in events; }
      AddReasonMembers(Answers(i, roots, p).reasons, if e.Cut? then e.reason else TRUNC_MAX_HITS);
    }
  }

  lemma {:induction false} MatchedIsSeen(i: Interest, events: seq<Event>)
    ensures forall fi :: fi in Matched(i, events) <==> Seen(fi) in events && i.matches(fi)
  {
    if events != [] {
      var p, e := events[..|events| - 1], events[|events| - 1];
      assert events == p + [e];
      MatchedIsSeen(i, p);
    }
  }

  /** The finished fact of one interest over a walk that ended in c. */
  function MatchesFact(i: Interest, roots: seq<ID>, c: Core): FSMatches {
    var f := Answers(i, roots, c.events);
    f.(rows := Lex.SortBy(f.rows, RowPath), inodesVisited := c.inodes)
  }

  /** f is the finished fact of one tally over a walk that ended in c. */
  ghost predicate IsTallyFact(q: Question, roots: seq<ID>, c: Core, f: FSTally) {
    var h := Folds(q, c.events);
    && Records(f.buckets, h, q.MaxKeys())
    && f == Marks(q, roots, c.events).(
         buckets := f.buckets, inodesTallied := |h|, keysDropped := Discarded(h, q.MaxKeys()), inodesVisited := c.inodes)
  }
}

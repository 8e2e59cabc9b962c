/** What a check may conclude from the facts of one walk. */
module WalkGuarantees {
  import opened Basics
  import opened FsFacts
  import opened Ids
  import opened WalkSpec
  import opened WalkTheorems
  import opened WalkAbsence
  import opened WalkFacts
  import opened Tally
  import Walker
  import Lex

  /** A complete fact comes from a walk on which no limit fired, and holds every match offered. */
  lemma {:induction false} CompleteMeansAll(i: Interest, w: World)
    requires MatchesFact(i, w.cfg.Roots(), Walk(w)).Complete()
    ensures NoCut(Walk(w).events)
    ensures forall fi | Seen(fi) in Walk(w).events && i.matches(fi) ::
              i.Row(fi) in MatchesFact(i, w.cfg.Roots(), Walk(w)).rows
  {
    var c, roots := Walk(w), w.cfg.Roots();
    var f, m := Answers(i, roots, c.events), Matched(i, c.events);
    FactIsExact(i, roots, c.events);
    MatchedIsSeen(i, c.events);
    Lex.SortByMembers(f.rows, RowPath);
    assert m[..|m|] == m;
    CutHasReason(c.events);
    forall fi | Seen(fi) in c.events && i.matches(fi) ensures i.Row(fi) in f.rows {
      assert fi in m;
      var n :| 0 <= n < |m| && m[n] == fi;
      assert f.rows[n] == i.Row(fi);
    }
  }

  /** The absence rule. If an interest's fact is complete, every entry of every directory in scope was
   * met under some path, and where the interest matches what was met there is its row. */
  lemma {:induction false} AbsenceRule(w: World, i: Interest, p: seq<FileInfo>)
    requires FaithfulIdentities(w)
    requires MatchesFact(i, w.cfg.Roots(), Walk(w)).Complete()
    requires InScope(w, p)
    ensures var d := p[|p| - 1];
            && w.List(d.path).Some?
            && forall e | e in w.List(d.path).value.entries :: exists e' :: SameInode(e, e') && MetAndAnswered(w, i, e')
  {
    CompleteMeansAll(i, w);
    WalkIsHonest(w);
    NothingInScopeMissed(w, p);
    var d := p[|p| - 1];
    forall e | e in w.List(d.path).value.entries ensures exists e' :: SameInode(e, e') && MetAndAnswered(w, i, e') {
      var e' :| SameInode(e, e') && Seen(e') in Walk(w).events;
      assert MetAndAnswered(w, i, e');
    }
  }

  /** The walk met e, as the filesystem answered it, and a match has its row. */
  ghost predicate MetAndAnswered(w: World, i: Interest, e: FileInfo) {
    && Seen(e) in Walk(w).events && Genuine(w, e)
    && (i.matches(e) ==> i.Row(e) in MatchesFact(i, w.cfg.Roots(), Walk(w)).rows)
  }

  /** The absence rule at the roots, which need not be directories. */
  lemma {:induction false} AbsenceAtRoots(w: World, i: Interest)
    requires FaithfulIdentities(w)
    requires MatchesFact(i, w.cfg.Roots(), Walk(w)).Complete()
    ensures forall root | root in w.cfg.Roots() :: w.stat(root).Some? && MetAndAnswered(w, i, w.stat(root).value)
  {
    CompleteMeansAll(i, w);
    WholeWalkCovers(w);
    forall root | root in w.cfg.Roots() ensures w.stat(root).Some? && MetAndAnswered(w, i, w.stat(root).value) {
      assert w.stat(root) == Some(w.stat(root).value);
    }
  }

  /** For a question about the inode and not its path: a match anywhere in scope has a row. */
  lemma {:induction false} AbsenceOfInode(w: World, i: Interest, p: seq<FileInfo>, e: FileInfo)
    requires FaithfulIdentities(w)
    requires MatchesFact(i, w.cfg.Roots(), Walk(w)).Complete()
    requires forall a, b | SameInode(a, b) :: i.matches(a) == i.matches(b)
    requires InScope(w, p) && w.List(p[|p| - 1].path).Some? && e in w.List(p[|p| - 1].path).value.entries
    requires i.matches(e)
    ensures exists e' :: SameInode(e, e') && Genuine(w, e') && i.Row(e') in MatchesFact(i, w.cfg.Roots(), Walk(w)).rows
  {
    AbsenceRule(w, i, p);
    var e' :| SameInode(e, e') && MetAndAnswered(w, i, e');
  }

  /** A row nobody shaped otherwise says of an inode what the filesystem said. */
  predicate CopiedFrom(row: FSRow, fi: FileInfo) {
    && row.path == fi.path && row.mode == fi.mode && row.uid == fi.uid && row.gid == fi.gid && row.size == fi.size
    && row.isDir == fi.isDir && row.isRegular == fi.isRegular && row.isSymlink == fi.isSymlink
  }

  /** Truncated or not, every row is a matching inode the filesystem really answered. */
  lemma {:induction false} RowsAreTrue(w: World, i: Interest, row: FSRow)
    requires row in MatchesFact(i, w.cfg.Roots(), Walk(w)).rows
    ensures exists fi :: Genuine(w, fi) && i.matches(fi) && (if i.row.Some? then row == i.row.value(fi) else CopiedFrom(row, fi))
  {
    var c, roots := Walk(w), w.cfg.Roots();
    var f, m := Answers(i, roots, c.events), Matched(i, c.events);
    Lex.SortByMembers(f.rows, RowPath);
    FactIsExact(i, roots, c.events);
    MatchedIsSeen(i, c.events);
    WalkIsHonest(w);
    var n :| 0 <= n < |f.rows| && f.rows[n] == row;
    assert row == i.Row(m[n]);
    assert m[n] in m;
    assert Genuine(w, m[n]);
  }

  /** A tally's fact is truncated exactly when a limit fired or a key was discarded. */
  lemma {:induction false} MarksAreExact(q: Question, roots: seq<ID>, events: seq<Event>)
    ensures Marks(q, roots, events).truncated <==>
              Discarded(Folds(q, events), q.MaxKeys()) > 0 || exists r :: Cut(r) in events
    ensures forall r :: r in Marks(q, roots, events).reasons <==>
              Cut(r) in events || (r == ID("max_keys") && Discarded(Folds(q, events), q.MaxKeys()) > 0)
    ensures Marks(q, roots, events).tally == q.name && Marks(q, roots, events).roots == roots
  {
    if events != [] {
      var p, e := events[..|events| - 1], events[|events| - 1];
      assert events == p + [e];
      MarksAreExact(q, roots, p);
      var h, h' := Folds(q, p), Folds(q, events);
      if e.Seen? && q.key(e.fi).Some? { FoldDiscards(h, Folded(q.key(e.fi).value, e.fi), q.MaxKeys()); }
      forall r ensures Cut(r) in events <==> Cut(r) in p || e == Cut(r) {}
      if e.Cut? { assert Cut(e.reason) in events; }
      AddReasonMembers(Marks(q, roots, p).reasons, if e.Cut? then e.reason else TRUNC_MAX_KEYS);
    }
  }

  /** Tally conservation, and truncation of the finished fact. */
  lemma {:induction false} TallyConserves(w: World, q: Question, f: FSTally)
    requires IsTallyFact(q, w.cfg.Roots(), Walk(w), f)
    ensures TotalOf(f.buckets) + f.keysDropped == f.inodesTallied
    ensures f.truncated <==> f.keysDropped > 0 || exists r :: Cut(r) in Walk(w).events
    ensures f.Complete() ==> TotalOf(f.buckets) == f.inodesTallied && NoCut(Walk(w).events)
  {
    var events := Walk(w).events;
    TotalConserves(f.buckets, Folds(q, events), q.MaxKeys());
    MarksAreExact(q, w.cfg.Roots(), events);
    CutHasReason(events);
  }

  /** Every early stop truncates every fact of the walk. */
  lemma {:induction false} EarlyStopTruncatesAll(w: World, interests: seq<Interest>, questions: seq<Question>, r: Walker.WalkResult)
    requires Walker.Outcome(w, interests, questions, r) && Walk(w).stop
    ensures forall n | 0 <= n < |r.facts| :: r.facts[n].truncated && !r.facts[n].Complete()
    ensures forall n | 0 <= n < |r.tallyFacts| :: r.tallyFacts[n].truncated && !r.tallyFacts[n].Complete()
  {
    EarlyStopIsRecorded(w);
    forall n | 0 <= n < |r.facts| ensures r.facts[n].truncated {
      FactIsExact(interests[n], w.cfg.Roots(), Walk(w).events);
    }
    forall n | 0 <= n < |r.tallyFacts| ensures r.tallyFacts[n].truncated {
      MarksAreExact(questions[n], w.cfg.Roots(), Walk(w).events);
    }
  }

  /** One shared walk answers each question as its own walk would. */
  lemma {:induction false} SharedWalkAnswersAlone(
      w: World, interests: seq<Interest>, questions: seq<Question>, r: Walker.WalkResult,
      interests': seq<Interest>, questions': seq<Question>, r': Walker.WalkResult)
    requires Walker.Outcome(w, interests, questions, r) && Walker.Outcome(w, interests', questions', r')
    ensures forall n, m | 0 <= n < |interests| && 0 <= m < |interests'| && interests[n] == interests'[m] :: r.facts[n] == r'.facts[m]
    ensures forall n, m | 0 <= n < |questions| && 0 <= m < |questions'| && questions[n] == questions'[m] :: r.tallyFacts[n] == r'.tallyFacts[m]
  {
    forall n, m | 0 <= n < |questions| && 0 <= m < |questions'| && questions[n] == questions'[m]
      ensures r.tallyFacts[n] == r'.tallyFacts[m]
    {
      var q := questions[n];
      var f, f' := r.tallyFacts[n], r'.tallyFacts[m];
      assert IsTallyFact(q, w.cfg.Roots(), Walk(w), f) && IsTallyFact(q, w.cfg.Roots(), Walk(w), f');
      RecordsUnique(f.buckets, f'.buckets, Folds(q, Walk(w).events), q.MaxKeys());
    }
  }

  // ---------------------------------------------------------------- the finished facts

  lemma {:induction false} AnswersNamed(i: Interest, roots: seq<ID>, events: seq<Event>)
    ensures Answers(i, roots, events).interest == i.name && Answers(i, roots, events).roots == roots
  {
    if events != [] { AnswersNamed(i, roots, events[..|events| - 1]); }
  }

  /** How many rows an interest may keep: what it says, or twenty thousand. */
  function RowLimit(i: Interest): nat { if i.maxHits > 0 then i.maxHits else 20_000 }

  /** How many keys a tally may keep: what it says, or 16384. */
  function KeyLimit(q: Question): nat { if q.maxKeys > 0 then q.maxKeys else 16_384 }

  /** A finished fact: the rows of the first matches, sorted by path, the number of the others, and of all inodes seen. */
  lemma {:induction false} FinishedFact(w: World, i: Interest)
    ensures var f, m := MatchesFact(i, w.cfg.Roots(), Walk(w)), Matched(i, Walk(w).events);
            var kept := if |m| < RowLimit(i) then |m| else RowLimit(i);
            && f.interest == i.name && f.roots == w.cfg.Roots()
            && multiset(f.rows) == multiset(RowsOf(i, m[..kept])) && f.overflow == |m| - kept
            && (forall a, b | 0 <= a < b < |f.rows| :: Lex.Leq(f.rows[a].path.name, f.rows[b].path.name))
            && (forall r :: r in f.reasons <==> Cut(r) in Walk(w).events || (r == ID("max_hits") && |m| > RowLimit(i)))
            && f.inodesVisited == CountSeen(Walk(w).events)
  {
    var roots, events := w.cfg.Roots(), Walk(w).events;
    var rows := Answers(i, roots, events).rows;
    FactIsExact(i, roots, events);
    AnswersNamed(i, roots, events);
    WalkIsHonest(w);
    Lex.SortBySorts(rows, RowPath);
    var f := MatchesFact(i, roots, Walk(w));
    forall a, b | 0 <= a < b < |f.rows| ensures Lex.Leq(f.rows[a].path.name, f.rows[b].path.name) {
      assert Lex.Leq(RowPath(f.rows[a]), RowPath(f.rows[b]));
    }
  }

  lemma {:induction false} MatchedAreCounted(q: Question, events: seq<Event>)
    ensures |Folds(q, events)| == CountIf(events, (e: Event) => e.Seen? && q.key(e.fi).Some?)
  {
    if events != [] { MatchedAreCounted(q, events[..|events| - 1]); }
  }

  /** Distinct members of a list are no more than the list has. */
  lemma {:induction false} NoMoreThan(a: seq<nat>, b: seq<nat>)
    requires NoDuplicates(a) && forall x | x in a :: x in b
    ensures |a| <= |b|
  {
    if a != [] {
      var n := |a| - 1;
      assert a[n] in a;
      var i :| 0 <= i < |b| && b[i] == a[n];
      forall x | x in a[..n] ensures x in Without(b, i) {
        assert x in a && x != a[n];
        var j :| 0 <= j < |b| && b[j] == x;
        assert Without(b, i)[if j < i then j else j - 1] == x;
      }
      NoMoreThan(a[..n], Without(b, i));
    }
  }

  /** A finished tally: named for its question, with the inodes it has a key for, and all inodes seen, counted. */
  lemma {:induction false} FinishedTally(w: World, q: Question, f: FSTally)
    requires IsTallyFact(q, w.cfg.Roots(), Walk(w), f)
    ensures f.tally == q.name && f.roots == w.cfg.Roots()
    ensures f.inodesTallied == CountIf(Walk(w).events, (e: Event) => e.Seen? && q.key(e.fi).Some?)
    ensures f.inodesVisited == CountSeen(Walk(w).events) && |f.buckets| <= KeyLimit(q)
    ensures forall r :: r in f.reasons <==> Cut(r) in Walk(w).events || (r == ID("max_keys") && f.keysDropped > 0)
  {
    var events := Walk(w).events;
    MarksAreExact(q, w.cfg.Roots(), events);
    MatchedAreCounted(q, events);
    WalkIsHonest(w);
    var h := Folds(q, events);
    forall i | 0 <= i < |f.buckets| ensures KeysOf(f.buckets)[i] in Admitted(h, q.MaxKeys()) {
      assert f.buckets[i] in f.buckets && IsBucket(f.buckets[i], h, q.MaxKeys());
    }
    NoMoreThan(KeysOf(f.buckets), Admitted(h, q.MaxKeys()));
  }
}

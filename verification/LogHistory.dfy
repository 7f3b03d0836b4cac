/** What a log holds, said of the history that led to it: the last writer of every index, and which
    record may come next. */
module LogHistory {
  import opened Prelude
  import opened RaftLog

  predicate IsMark(r: Record) {
    r.SnapshotMark? || r.InstalledSnapshotMark?
  }

  /** The record takes entries of this index away. */
  predicate Drops(r: Record, index: u64) {
    (r.Truncate? && r.from <= index) || (IsMark(r) && index <= r.mark.index)
  }

  /** The entry was appended and nothing later took it away. */
  ghost predicate Standing(rs: seq<Record>, e: Entry) {
    exists j :: 0 <= j < |rs| && rs[j] == Append(e) && forall k | j < k < |rs| :: !Drops(rs[k], e.index)
  }

  /** Where the log starts: at its last snapshot. */
  function LastMark(rs: seq<Record>): u64 {
    if rs == [] then 0 else if IsMark(rs[|rs| - 1]) then rs[|rs| - 1].mark.index else LastMark(rs[..|rs| - 1])
  }

  lemma {:induction false} RunSnoc(v: LogView, rs: seq<Record>, r: Record)
    ensures Run(v, rs + [r]) == if Run(v, rs).None? then None else Apply(Run(v, rs).value, r)
    decreases |rs|
  {
    hide Apply;
    if rs == [] {
      assert (rs + [r])[1..] == [];
      if Apply(v, r).Some? {
        assert Run(Apply(v, r).value, []) == Some(Apply(v, r).value);
      }
    } else {
      assert (rs + [r])[1..] == rs[1..] + [r];
      if Apply(v, rs[0]).Some? {
        RunSnoc(Apply(v, rs[0]).value, rs[1..], r);
      }
    }
  }

  lemma {:induction false} InBelow(es: seq<Entry>, from: u64, e: Entry)
    ensures e in Below(es, from) <==> e in es && e.index < from
  {
    if es != [] {
      InBelow(es[1..], from, e);
      assert es == [es[0]] + es[1..];
    }
  }

  lemma {:induction false} InAbove(es: seq<Entry>, index: u64, e: Entry)
    ensures e in Above(es, index) <==> e in es && e.index > index
  {
    if es != [] {
      InAbove(es[1..], index, e);
      assert es == [es[0]] + es[1..];
    }
  }

  /** One more record leaves standing what it does not drop, and what it appends. */
  lemma StandingSnoc(rs: seq<Record>, r: Record, e: Entry)
    ensures Standing(rs + [r], e) <==> r == Append(e) || (Standing(rs, e) && !Drops(r, e.index))
  {
    var all, n := rs + [r], |rs|;
    assert all[n] == r && forall k | 0 <= k < n :: all[k] == rs[k];
    if Standing(all, e) {
      var j :| 0 <= j < |all| && all[j] == Append(e) && forall k | j < k < |all| :: !Drops(all[k], e.index);
      if j < n {
        assert !Drops(all[n], e.index) && rs[j] == Append(e);
        assert forall k | j < k < n :: !Drops(rs[k], e.index);
      }
    }
    if r == Append(e) {
      assert all[n] == Append(e);
    } else if Standing(rs, e) && !Drops(r, e.index) {
      var j :| 0 <= j < n && rs[j] == Append(e) && forall k | j < k < n :: !Drops(rs[k], e.index);
      assert all[j] == Append(e) && forall k | j < k < |all| :: !Drops(all[k], e.index);
    }
  }

  lemma StepHolds(v: LogView, r: Record, e: Entry)
    requires Apply(v, r).Some?
    ensures e in Apply(v, r).value.entries <==> r == Append(e) || (e in v.entries && !Drops(r, e.index))
    ensures Apply(v, r).value.baseIndex == if IsMark(r) then r.mark.index else v.baseIndex
  {
    hide HardAccepted, MarkAccepted, Below, Above;
    match r
    case Truncate(from) => InBelow(v.entries, from, e);
    case SnapshotMark(mark) => InAbove(v.entries, mark.index, e);
    case InstalledSnapshotMark(mark) => InAbove(v.entries, mark.index, e);
    case _ =>
  }

  /** Entries are numbered on from where the log starts, up to the largest index. */
  ghost predicate Numbered(v: LogView) {
    forall i | 0 <= i < |v.entries| :: v.entries[i].index == SatAdd(v.baseIndex, i + 1)
  }

  lemma MarkNumbers(v: LogView, mark: Mark)
    requires Coherent(v) && Numbered(v) && mark.index >= v.baseIndex
    ensures Numbered(Rebase(v, mark))
  {
    var es := v.entries;
    var n := SplitAt(es, mark.index);
    hide Above;
    forall i | 0 <= i < |es| - n ensures es[n..][i].index == SatAdd(mark.index, i + 1) {
      assert es[n..][i] == es[n + i];
      assert n > 0 ==> es[n - 1].index <= mark.index < es[n].index;
    }
  }

  lemma StepNumbers(v: LogView, r: Record)
    requires Coherent(v) && Numbered(v) && Apply(v, r).Some?
    ensures Numbered(Apply(v, r).value)
  {
    hide HardAccepted, TermAt, Above, Below, Coherent, Rebase;
    match r
    case Truncate(from) =>
      CoherentOrdered(v);
      var n := BelowIsPrefix(v.entries, from);
    case SnapshotMark(mark) => MarkNumbers(v, mark);
    case InstalledSnapshotMark(mark) => MarkNumbers(v, mark);
    case _ =>
  }

  lemma CoherentOrdered(v: LogView)
    requires Coherent(v)
    ensures Ordered(v.entries)
  {
  }

  /** The log after any accepted history holds exactly the standing entries, and starts at the last mark. */
  lemma {:induction false} HoldsTheStanding(g: Genesis, rs: seq<Record>, e: Entry)
    requires Run(Fresh(g), rs).Some?
    ensures var v := Run(Fresh(g), rs).value;
            (e in v.entries <==> Standing(rs, e)) && v.baseIndex == LastMark(rs) && Coherent(v) && Numbered(v)
    decreases |rs|
  {
    hide Apply, Coherent, Standing, Numbered;
    if rs == [] {
      StartsCoherent(g, e);
    } else {
      var n := |rs| - 1;
      assert rs == rs[..n] + [rs[n]];
      RunSnoc(Fresh(g), rs[..n], rs[n]);
      HoldsTheStanding(g, rs[..n], e);
      var v := Run(Fresh(g), rs[..n]).value;
      StepHolds(v, rs[n], e);
      StandingSnoc(rs[..n], rs[n], e);
      CoherentStep(v, rs[n]);
      StepNumbers(v, rs[n]);
    }
  }

  lemma StartsCoherent(g: Genesis, e: Entry)
    ensures Coherent(Fresh(g)) && Numbered(Fresh(g)) && Run(Fresh(g), []) == Some(Fresh(g)) && !Standing([], e) && LastMark([]) == 0
  {
  }

  /** The index of the last standing entry, or where the log starts when there is none. */
  ghost predicate Reaches(rs: seq<Record>, last: u64) {
    (forall e | Standing(rs, e) :: e.index <= last) &&
    ((exists e :: Standing(rs, e) && e.index == last) || (last == LastMark(rs) && forall e :: !Standing(rs, e)))
  }

  lemma LastIsReached(g: Genesis, rs: seq<Record>)
    requires Run(Fresh(g), rs).Some?
    ensures Reaches(rs, LastIndex(Run(Fresh(g), rs).value))
  {
    hide Standing, Run, LastMark;
    var v := Run(Fresh(g), rs).value;
    HoldsTheStanding(g, rs, Entry(0, 0, Noop, []));
    forall e ensures e in v.entries <==> Standing(rs, e) {
      HoldsTheStanding(g, rs, e);
    }
    if v.entries != [] {
      var e := v.entries[|v.entries| - 1];
      assert e in v.entries;
      forall x | Standing(rs, x) ensures x.index <= e.index {
        var i :| 0 <= i < |v.entries| && v.entries[i] == x;
      }
    } else {
      assert forall e :: e !in v.entries;
    }
  }

  ghost predicate StandsAt(rs: seq<Record>, index: u64, term: u64) {
    exists e :: Standing(rs, e) && e.index == index && e.term == term
  }

  /** Which record may follow an accepted history, given where its entries reach. */
  ghost predicate MayFollow(rs: seq<Record>, last: u64, hard: HardState, r: Record) {
    match r
    case GenesisRecord(_) => false
    case Hard(next) => HardAccepted(hard, next)
    case Append(e) => last < U64_MAX && e.index == last + 1
    case Truncate(from) => from > LastMark(rs)
    case SnapshotMark(mark) => mark.index > LastMark(rs) && StandsAt(rs, mark.index, mark.term)
    case InstalledSnapshotMark(mark) =>
      mark.index > LastMark(rs) && forall e | Standing(rs, e) && e.index == mark.index :: e.term == mark.term
  }

  lemma {:induction false} TermFound(es: seq<Entry>, index: u64)
    ensures FindTerm(es, index).None? ==> forall e | e in es :: e.index != index
    ensures FindTerm(es, index).Some? ==> exists e :: e in es && e.index == index && e.term == FindTerm(es, index).value
  {
    if es != [] {
      TermFound(es[1..], index);
      assert es == [es[0]] + es[1..];
      if es[0].index == index {
        assert es[0] in es;
      } else if FindTerm(es[1..], index).Some? {
        var e :| e in es[1..] && e.index == index && e.term == FindTerm(es[1..], index).value;
        assert e in es;
      }
    }
  }

  lemma OneTerm(v: LogView, a: Entry, b: Entry)
    requires Numbered(v) && a in v.entries && b in v.entries && a.index == b.index < U64_MAX
    ensures a == b
  {
    var i :| 0 <= i < |v.entries| && v.entries[i] == a;
    var j :| 0 <= j < |v.entries| && v.entries[j] == b;
  }

  /** After any accepted history the next record is accepted exactly when it may follow: an append at the
      next index, a truncation behind the last mark, a mark beyond it whose term agrees with the log. */
  lemma NextExact(g: Genesis, rs: seq<Record>, r: Record)
    requires Run(Fresh(g), rs).Some? && LastIndex(Run(Fresh(g), rs).value) < U64_MAX
    requires IsMark(r) ==> r.mark.index < U64_MAX
    ensures var v := Run(Fresh(g), rs).value;
            Reaches(rs, LastIndex(v)) && (Run(Fresh(g), rs + [r]).Some? <==> MayFollow(rs, LastIndex(v), v.hard, r))
  {
    hide Standing, Run, LastMark, HardAccepted, FindTerm, Below, Above, Reaches;
    var v := Run(Fresh(g), rs).value;
    LastIsReached(g, rs);
    RunSnoc(Fresh(g), rs, r);
    HoldsTheStanding(g, rs, Entry(0, 0, Noop, []));
    forall e ensures e in v.entries <==> Standing(rs, e) {
      HoldsTheStanding(g, rs, e);
    }
    if IsMark(r) {
      TermFound(v.entries, r.mark.index);
      forall a, b | a in v.entries && b in v.entries && a.index == r.mark.index && b.index == r.mark.index ensures a == b {
        OneTerm(v, a, b);
      }
    }
  }
}

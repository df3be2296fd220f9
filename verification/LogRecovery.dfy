/**
 * Data logs after a power cut (src/datalog.c, src/logfile.c): where a log's
 * whole blocks end, and the walk that closes the logs left open.
 */
module LogRecovery {
  const RECORD: nat := 32768            // DL_RECORD
  const MAX_OPEN: nat := 8

  /** Files of the root directory in the order exfat_list gives them. */
  datatype Rec = Rec(id: nat, length: nat, valid: nat, plain: bool)

  /** What open logs look like: full length, nothing valid, contiguous, not a directory, a short name. */
  predicate Candidate(r: Rec, bytes: nat) {
    r.length == bytes && r.valid == 0 && r.plain
  }

  function Candidates(files: seq<Rec>, bytes: nat): seq<Rec> {
    if files == [] then []
    else (if Candidate(files[0], bytes) then [files[0]] else []) + Candidates(files[1..], bytes)
  }

  predicate Distinct(files: seq<Rec>) {
    forall i, j :: 0 <= i < j < |files| ==> files[i].id != files[j].id
  }

  /** A candidate log_recover came to: what it returned, and the directory around it. */
  datatype Visit = Visit(id: nat, res: int, blocks: nat, before: seq<Rec>, after: seq<Rec>)

  /** framed(k) says that block k has its frame at both ends: w whole blocks, in order, and no more. */
  predicate InOrder(framed: nat -> bool, blocks: nat, w: nat) {
    && w <= blocks
    && (forall k :: 0 <= k < w ==> framed(k))
    && (forall k :: w <= k < blocks ==> !framed(k))
  }

  // ---- lists of candidates ------------------------------------------------------------------

  lemma {:induction false} CandidatesConcat(a: seq<Rec>, b: seq<Rec>, bytes: nat)
    ensures Candidates(a + b, bytes) == Candidates(a, bytes) + Candidates(b, bytes)
  {
    if a == [] {
      assert a + b == b;
    } else {
      assert (a + b)[1..] == a[1..] + b;
      CandidatesConcat(a[1..], b, bytes);
      var x := if Candidate(a[0], bytes) then [a[0]] else [];
      var y, z := Candidates(a[1..], bytes), Candidates(b, bytes);
      assert x + (y + z) == x + y + z;
    }
  }

  lemma {:induction false} CandidatesAre(files: seq<Rec>, bytes: nat)
    ensures forall r :: r in Candidates(files, bytes) <==> r in files && Candidate(r, bytes)
    ensures |Candidates(files, bytes)| <= |files|
  {
    if files == [] {
    } else {
      CandidatesAre(files[1..], bytes);
    }
  }

  function Without(s: seq<Rec>, id: nat): seq<Rec> {
    if s == [] then [] else (if s[0].id == id then [] else [s[0]]) + Without(s[1..], id)
  }

  /** Only the file id is changed, or it is gone: the rest stay, in order. */
  predicate OnlyChanged(files: seq<Rec>, files': seq<Rec>, id: nat) {
    Without(files', id) == Without(files, id) && Distinct(files')
  }

  /** When id is no longer a candidate, the others are those there were. */
  lemma {:induction false} CandidatesWithout(files: seq<Rec>, bytes: nat, id: nat)
    ensures Candidates(Without(files, id), bytes) == Without(Candidates(files, bytes), id)
  {
    if files == [] {
    } else {
      CandidatesWithout(files[1..], bytes, id);
      var head := if Candidate(files[0], bytes) then [files[0]] else [];
      WithoutConcat(head, Candidates(files[1..], bytes), id);
      if files[0].id == id {
        assert Without(files, id) == [] + Without(files[1..], id) == Without(files[1..], id);
        if head != [] { assert head[1..] == []; }
      } else {
        assert Without(files, id) == [files[0]] + Without(files[1..], id);
        assert ([files[0]] + Without(files[1..], id))[1..] == Without(files[1..], id);
        if head != [] { assert head[1..] == []; }
      }
    }
  }

  lemma {:induction false} WithoutConcat(a: seq<Rec>, b: seq<Rec>, id: nat)
    ensures Without(a + b, id) == Without(a, id) + Without(b, id)
  {
    if a == [] {
      assert a + b == b;
    } else {
      assert (a + b)[1..] == a[1..] + b;
      WithoutConcat(a[1..], b, id);
    }
  }

  lemma {:induction false} WithoutNone(s: seq<Rec>, id: nat)
    requires forall r :: r in s ==> r.id != id
    ensures Without(s, id) == s
  {
    if s == [] {
    } else {
      WithoutNone(s[1..], id);
    }
  }

  lemma {:induction false} WithoutIs(s: seq<Rec>, id: nat)
    ensures forall r :: r in Without(s, id) <==> r in s && r.id != id
  {
    if s == [] {
    } else {
      WithoutIs(s[1..], id);
    }
  }

  lemma {:induction false} WithoutLess(s: seq<Rec>, id: nat)
    requires Distinct(s)
    ensures |Without(s, id)| <= |s| <= |Without(s, id)| + 1
    ensures (exists r :: r in s && r.id == id) ==> |Without(s, id)| == |s| - 1
  {
    if s == [] {
    } else {
      if s[0].id == id {
        WithoutNone(s[1..], id);
      } else {
        WithoutLess(s[1..], id);
      }
    }
  }

  lemma {:induction false} CandidatesDistinct(files: seq<Rec>, bytes: nat)
    requires Distinct(files)
    ensures Distinct(Candidates(files, bytes))
  {
    if files == [] {
    } else {
      CandidatesDistinct(files[1..], bytes);
      CandidatesAre(files[1..], bytes);
      var tail := Candidates(files[1..], bytes);
      forall j | 0 <= j < |tail| ensures tail[j].id != files[0].id {
        assert tail[j] in files[1..];
      }
    }
  }

  /** Taking the record at k out of a list of distinct ones. */
  lemma {:induction false} WithoutAt(s: seq<Rec>, k: nat)
    requires Distinct(s) && k < |s|
    ensures Without(s, s[k].id) == s[..k] + s[k + 1..]
  {
    var a, b := s[..k], s[k + 1..];
    assert forall r :: r in a ==> r.id != s[k].id;
    assert forall r :: r in b ==> r.id != s[k].id;
    assert [s[k]][1..] == [] && Without([s[k]], s[k].id) == [] + Without([], s[k].id) == [];
    hide Without, Distinct;
    assert s == a + [s[k]] + b;
    WithoutConcat(a + [s[k]], b, s[k].id);
    WithoutConcat(a, [s[k]], s[k].id);
    WithoutNone(a, s[k].id);
    WithoutNone(b, s[k].id);
    assert a + [] == a;
  }

  /** The file id now has this length, all of it valid. */
  function Retyped(s: seq<Rec>, id: nat, length: nat): seq<Rec> {
    if s == [] then []
    else [if s[0].id == id then s[0].(length := length, valid := length) else s[0]] + Retyped(s[1..], id, length)
  }

  lemma {:induction false} RetypedIs(s: seq<Rec>, id: nat, length: nat)
    ensures |Retyped(s, id, length)| == |s|
    ensures forall k :: 0 <= k < |s| ==>
              Retyped(s, id, length)[k] == (if s[k].id == id then s[k].(length := length, valid := length) else s[k])
  {
    if s == [] {
    } else {
      RetypedIs(s[1..], id, length);
    }
  }

  lemma {:induction false} RetypedOthers(s: seq<Rec>, id: nat, length: nat)
    requires Distinct(s)
    ensures OnlyChanged(s, Retyped(s, id, length), id)
  {
    RetypedIs(s, id, length);
    RetypedWithout(s, id, length);
  }

  lemma {:induction false} RetypedWithout(s: seq<Rec>, id: nat, length: nat)
    ensures Without(Retyped(s, id, length), id) == Without(s, id)
  {
    if s == [] {
    } else {
      RetypedWithout(s[1..], id, length);
      assert Retyped(s, id, length)[1..] == Retyped(s[1..], id, length);
    }
  }

  lemma {:induction false} WithoutTwice(s: seq<Rec>, id: nat)
    requires Distinct(s)
    ensures OnlyChanged(s, Without(s, id), id)
  {
    WithoutIs(s, id);
    WithoutNone(Without(s, id), id);
    WithoutDistinct(s, id);
  }

  lemma {:induction false} WithoutDistinct(s: seq<Rec>, id: nat)
    requires Distinct(s)
    ensures Distinct(Without(s, id))
  {
    if s == [] {
    } else {
      WithoutDistinct(s[1..], id);
      WithoutIs(s[1..], id);
      var tail := Without(s[1..], id);
      forall j | 0 <= j < |tail| ensures tail[j].id != s[0].id {
        assert tail[j] in s[1..];
      }
    }
  }

  predicate Present(files: seq<Rec>, id: nat) {
    exists k :: 0 <= k < |files| && files[k].id == id
  }

  predicate HasLength(files: seq<Rec>, id: nat, length: nat) {
    exists f :: f in files && f.id == id && f.length == length && f.valid == length
  }

  function Picked(c: seq<Rec>, skip: nat): seq<Rec> {
    if |c| <= skip then [] else if |c| - skip <= MAX_OPEN then c[skip..] else c[skip..skip + MAX_OPEN]
  }

  lemma {:induction false} NoCandidates(bytes: nat)
    ensures Candidates([], bytes) == []
  {}

  lemma {:induction false} OneCandidate(f: Rec, bytes: nat)
    ensures Candidates([f], bytes) == if Candidate(f, bytes) then [f] else []
  {
    assert [f][1..] == [];
  }

  function Ids(s: seq<Rec>): seq<nat> {
    seq(|s|, k requires 0 <= k < |s| => s[k].id)
  }

  // ---- runs of log_recover ------------------------------------------------------------------

  /** What a visit may do: leave the file, trim it to whole blocks, or delete it. */
  ghost predicate Step(v: Visit) {
    && v.res <= 1
    && (v.res == 0 ==> v.after == v.before)
    && (v.res == 1 ==> v.after == Changed(v))
    && (v.after == v.before || v.after == Changed(v))
  }

  function Changed(v: Visit): seq<Rec> {
    if v.blocks > 0 then Retyped(v.before, v.id, v.blocks * RECORD) else Without(v.before, v.id)
  }

  /** A visit that failed, but after the entry was written: the file is no candidate any more. */
  predicate Lost(v: Visit) {
    v.res < 0 && v.after != v.before
  }

  /** log_recover's skip. */
  function Passed(vs: seq<Visit>): nat {
    if vs == [] then 0 else Passed(vs[..|vs| - 1]) + if vs[|vs| - 1].res <= 0 then 1 else 0
  }

  function Losses(vs: seq<Visit>): nat {
    if vs == [] then 0 else Losses(vs[..|vs| - 1]) + if Lost(vs[|vs| - 1]) then 1 else 0
  }

  /** log_recover's result. */
  function Closed(vs: seq<Visit>): nat {
    if vs == [] then 0
    else Closed(vs[..|vs| - 1]) + if vs[|vs| - 1].res == 1 && vs[|vs| - 1].blocks > 0 then 1 else 0
  }

  function After(files: seq<Rec>, vs: seq<Visit>): seq<Rec> {
    if vs == [] then files else vs[|vs| - 1].after
  }

  function VisitIds(vs: seq<Visit>): seq<nat> {
    seq(|vs|, k requires 0 <= k < |vs| => vs[k].id)
  }

  /** The round that visit k is in starts at this visit. */
  function RoundOf(k: nat): (r: nat)
    ensures r <= k < r + MAX_OPEN && r % MAX_OPEN == 0
  {
    k / MAX_OPEN * MAX_OPEN
  }

  /** What gather picks after these visits. */
  function Pick(files: seq<Rec>, vs: seq<Visit>, bytes: nat): seq<Rec> {
    Picked(Candidates(After(files, vs), bytes), Passed(vs))
  }

  ghost predicate VisitAt(files: seq<Rec>, vs: seq<Visit>, bytes: nat, k: nat)
    requires k < |vs|
  {
    var o := Pick(files, vs[..RoundOf(k)], bytes);
    && Step(vs[k]) && vs[k].before == After(files, vs[..k])
    && k - RoundOf(k) < |o| && vs[k].id == o[k - RoundOf(k)].id
  }

  /** Visits in rounds: each round's are those picked when it starts. */
  ghost predicate IsRun(files: seq<Rec>, vs: seq<Visit>, bytes: nat) {
    forall k :: 0 <= k < |vs| ==> VisitAt(files, vs, bytes, k)
  }

  /** The last round is over, and was not a full one. */
  ghost predicate Finished(files: seq<Rec>, vs: seq<Visit>, bytes: nat) {
    IsRun(files, vs, bytes) && |Pick(files, vs[..RoundOf(|vs|)], bytes)| == |vs| - RoundOf(|vs|)
  }

  // ---- which candidate each visit is of --------------------------------------------------------

  predicate Left(c: seq<Rec>, skip: int, all: seq<Rec>, v: nat) {
    0 <= skip <= |c| && v <= |all| && c[skip..] == all[v..]
  }

  lemma {:induction false} LeftFurther(c: seq<Rec>, skip: nat, all: seq<Rec>, v: nat, d: nat)
    requires Left(c, skip, all, v) && skip + d <= |c|
    ensures Left(c, skip + d, all, v + d)
  {
    assert |c[skip..]| == |all[v..]|;
    assert c[skip + d..] == c[skip..][d..] && all[v + d..] == all[v..][d..];
  }

  lemma {:induction false} LeftAt(c: seq<Rec>, skip: nat, all: seq<Rec>, v: nat, i: nat)
    requires Left(c, skip, all, v) && skip + i < |c|
    ensures v + i < |all| && c[skip + i] == all[v + i]
  {
    assert |c[skip..]| == |all[v..]|;
    assert c[skip..][i] == all[v..][i];
  }

  /** The file visited goes: the rest of the list moves down to it. */
  lemma {:induction false} LeftWithout(c: seq<Rec>, skip: nat, all: seq<Rec>, v: nat)
    requires Left(c, skip, all, v) && skip < |c| && Distinct(c)
    ensures v < |all| && Left(Without(c, c[skip].id), skip, all, v + 1)
  {
    LeftFurther(c, skip, all, v, 1);
    WithoutAt(c, skip);
    assert (c[..skip] + c[skip + 1..])[skip..] == c[skip + 1..];
  }

  /** What a visit does to the list of candidates. */
  lemma {:induction false} AfterStep(v: Visit, bytes: nat, r: Rec)
    requires Distinct(v.before) && Step(v) && r in Candidates(v.before, bytes) && r.id == v.id
    ensures OnlyChanged(v.before, v.after, v.id)
    ensures Candidates(v.after, bytes)
            == if v.after == v.before then Candidates(v.before, bytes) else Without(Candidates(v.before, bytes), v.id)
    ensures v.after == v.before ==> v.res <= 0
  {
    hide Candidates, Without, Retyped, Distinct;
    if v.blocks > 0 {
      RetypedOthers(v.before, v.id, v.blocks * RECORD);
      RetypedIs(v.before, v.id, v.blocks * RECORD);
    } else {
      WithoutTwice(v.before, v.id);
      WithoutIs(v.before, v.id);
    }
    assert forall f :: f in Changed(v) && f.id == v.id ==> !Candidate(f, bytes);
    CandidatesAre(v.before, bytes);
    if v.after != v.before {
      CandidatesAre(v.after, bytes);
      CandidatesWithout(v.before, bytes, v.id);
      CandidatesWithout(v.after, bytes, v.id);
      WithoutNone(Candidates(v.after, bytes), v.id);
    }
  }

  /** After k visits, the last of them in the round that began at r. */
  ghost predicate Standing(files: seq<Rec>, vs: seq<Visit>, bytes: nat, k: nat, r: nat)
    requires r <= k <= |vs|
  {
    && Distinct(After(files, vs[..k]))
    && Left(Candidates(After(files, vs[..k]), bytes), Passed(vs[..k]) - Losses(vs[..k]) + Losses(vs[..r]),
            Candidates(files, bytes), k + Losses(vs[..r]))
  }

  lemma {:induction false} OneMore(vs: seq<Visit>, k: nat)
    requires k < |vs|
    ensures Passed(vs[..k + 1]) == Passed(vs[..k]) + if vs[k].res <= 0 then 1 else 0
    ensures Losses(vs[..k + 1]) == Losses(vs[..k]) + if Lost(vs[k]) then 1 else 0
    ensures Closed(vs[..k + 1]) == Closed(vs[..k]) + if vs[k].res == 1 && vs[k].blocks > 0 then 1 else 0
  {
    assert vs[..k + 1][..k] == vs[..k];
  }

  lemma {:induction false} LossesGrow(vs: seq<Visit>, j: nat, k: nat)
    requires j <= k <= |vs|
    ensures Losses(vs[..j]) <= Losses(vs[..k]) <= Passed(vs[..k])
    ensures (exists i :: j <= i < k && Lost(vs[i])) <==> Losses(vs[..j]) < Losses(vs[..k])
    decreases k
  {
    if k == 0 {
    } else {
      OneMore(vs, k - 1);
      if j < k { LossesGrow(vs, j, k - 1); } else { LossesGrow(vs, k - 1, k - 1); }
    }
  }

  /**
   * Visit k is of the candidate numbered k plus the number of files lost in
   * the rounds before: each lost one makes the next rounds pass over one more.
   */
  lemma {:induction false} VisitNumber(files: seq<Rec>, vs: seq<Visit>, bytes: nat, k: nat)
    requires IsRun(files, vs, bytes) && Distinct(files) && k < |vs|
    ensures Standing(files, vs, bytes, k, RoundOf(k))
    ensures k + Losses(vs[..RoundOf(k)]) < |Candidates(files, bytes)|
    ensures Candidates(files, bytes)[k + Losses(vs[..RoundOf(k)])].id == vs[k].id
    decreases k, 1
  {
    hide Candidates, Distinct, Passed, Losses, Left;
    var all, r := Candidates(files, bytes), RoundOf(k);
    assert VisitAt(files, vs, bytes, k);
    var c := Candidates(After(files, vs[..r]), bytes);
    if k > 0 { Behind(files, vs, bytes, k); } else { AtStart(files, vs, bytes); }
    if k == r {
      LossesGrow(vs, if k == 0 then 0 else RoundOf(k - 1), k);
      var d := Losses(vs[..k]) - Losses(vs[..if k == 0 then 0 else RoundOf(k - 1)]);
      LeftFurther(c, Passed(vs[..k]) - d, all, k + Losses(vs[..k]) - d, d);
    } else {
      VisitNumber(files, vs, bytes, r);
    }
    LeftAt(c, Passed(vs[..r]), all, r + Losses(vs[..r]), k - r);
  }

  lemma {:induction false} AtStart(files: seq<Rec>, vs: seq<Visit>, bytes: nat)
    requires Distinct(files)
    ensures Standing(files, vs, bytes, 0, 0)
  {
    assert vs[..0] == [];
  }

  lemma {:induction false} Behind(files: seq<Rec>, vs: seq<Visit>, bytes: nat, k: nat)
    requires IsRun(files, vs, bytes) && Distinct(files) && 0 < k <= |vs|
    ensures Standing(files, vs, bytes, k, RoundOf(k - 1))
    decreases k, 0
  {
    hide Candidates, Distinct, Passed, Losses, Left, VisitAt, IsRun, Without, Retyped;
    var j, r := k - 1, RoundOf(k - 1);
    VisitNumber(files, vs, bytes, j);
    Chained(files, vs, bytes, j);
    var v := vs[j];
    assert v.after == After(files, vs[..k]) && v.before == After(files, vs[..j]);
    var c, all := Candidates(v.before, bytes), Candidates(files, bytes);
    var q := Passed(vs[..j]) - Losses(vs[..j]) + Losses(vs[..r]);
    OneMore(vs, j);
    LeftEnds(c, q, all, j + Losses(vs[..r]));
    assert c[q] in c && c[q].id == v.id by { LeftAt(c, q, all, j + Losses(vs[..r]), 0); }
    AfterStep(v, bytes, c[q]);
    CandidatesDistinct(v.before, bytes);
    if v.after == v.before {
      LeftFurther(c, q, all, j + Losses(vs[..r]), 1);
    } else {
      LeftWithout(c, q, all, j + Losses(vs[..r]));
    }
  }

  /** One of the files has this number, this length, nothing valid in it, and is contiguous and of a short name. */
  predicate LooksOpen(files: seq<Rec>, id: nat, bytes: nat) {
    exists f :: f in files && f.id == id && f.length == bytes && f.valid == 0 && f.plain
  }

  /** Each visit is of a file of that length with nothing valid in it, contiguous and of a short name. */
  lemma {:induction false} VisitedAre(files: seq<Rec>, vs: seq<Visit>, bytes: nat)
    requires IsRun(files, vs, bytes) && Distinct(files)
    ensures forall k :: 0 <= k < |vs| ==> LooksOpen(files, vs[k].id, bytes)
  {
    hide Candidates, Distinct, IsRun, Standing;
    CandidatesAre(files, bytes);
    forall k | 0 <= k < |vs|
      ensures LooksOpen(files, vs[k].id, bytes)
    {
      VisitNumber(files, vs, bytes, k);
      var f := Candidates(files, bytes)[k + Losses(vs[..RoundOf(k)])];
      assert f in Candidates(files, bytes);
      assert f in files && f.id == vs[k].id && Candidate(f, bytes);
    }
  }

  lemma {:induction false} AllVisited(files: seq<Rec>, vs: seq<Visit>, bytes: nat)
    requires VisitIds(vs) == Ids(Candidates(files, bytes))
    ensures forall f :: f in files && f.length == bytes && f.valid == 0 && f.plain ==> f.id in VisitIds(vs)
  {
    hide Candidates;
    CandidatesAre(files, bytes);
    forall f | f in files && f.length == bytes && f.valid == 0 && f.plain ensures f.id in VisitIds(vs) {
      assert f in Candidates(files, bytes);
      var k :| 0 <= k < |Candidates(files, bytes)| && Candidates(files, bytes)[k] == f;
      assert Ids(Candidates(files, bytes))[k] == f.id;
    }
  }

  lemma {:induction false} LeftEnds(c: seq<Rec>, skip: int, all: seq<Rec>, v: nat)
    requires Left(c, skip, all, v)
    ensures 0 <= skip && |c| - skip == |all| - v
  {
    assert |c[skip..]| == |all[v..]|;
  }

  // ---- exactly once ------------------------------------------------------------------------------

  /** A file is lost only in the round that takes the last of the candidates there were. */
  ghost predicate LostOnlyAtEnd(vs: seq<Visit>, candidates: nat) {
    forall k :: 0 <= k < |vs| && Lost(vs[k]) ==> RoundOf(k) + MAX_OPEN >= candidates
  }

  /** When the last round is over, the candidates visited or passed over for lost ones are all of them. */
  lemma {:induction false} AllCounted(files: seq<Rec>, vs: seq<Visit>, bytes: nat)
    requires Finished(files, vs, bytes) && Distinct(files)
    ensures |Candidates(files, bytes)| <= |vs| + Losses(vs[..RoundOf(|vs|)])
  {
    hide Candidates, Distinct, Passed, Losses, Left;
    var n, r := |vs|, RoundOf(|vs|);
    var c, all := Candidates(After(files, vs[..r]), bytes), Candidates(files, bytes);
    if r < n {
      VisitNumber(files, vs, bytes, r);
      LeftEnds(c, Passed(vs[..r]), all, r + Losses(vs[..r]));
    } else {
      if n > 0 { Behind(files, vs, bytes, n); } else { AtStart(files, vs, bytes); }
      var r0 := if n == 0 then 0 else RoundOf(n - 1);
      LeftEnds(c, Passed(vs[..n]) - Losses(vs[..n]) + Losses(vs[..r0]), all, n + Losses(vs[..r0]));
    }
  }

  /**
   * log_recover deals with each candidate exactly once, in order, exactly when
   * no file is lost in a round that leaves candidates to the next.
   */
  lemma {:induction false} ExactlyOnce(files: seq<Rec>, vs: seq<Visit>, bytes: nat)
    requires Finished(files, vs, bytes) && Distinct(files)
    ensures VisitIds(vs) == Ids(Candidates(files, bytes)) <==> LostOnlyAtEnd(vs, |Candidates(files, bytes)|)
  {
    if LostOnlyAtEnd(vs, |Candidates(files, bytes)|) {
      EachOnce(files, vs, bytes);
    } else {
      var m := MissedOne(files, vs, bytes);
      assert Ids(Candidates(files, bytes))[m] == Candidates(files, bytes)[m].id;
      if m < |vs| { assert VisitIds(vs)[m] != Ids(Candidates(files, bytes))[m]; }
    }
  }

  lemma {:induction false} EachOnce(files: seq<Rec>, vs: seq<Visit>, bytes: nat)
    requires Finished(files, vs, bytes) && Distinct(files) && LostOnlyAtEnd(vs, |Candidates(files, bytes)|)
    ensures VisitIds(vs) == Ids(Candidates(files, bytes))
  {
    hide Candidates, Distinct, Passed, Losses, Left, Standing, VisitAt;
    var all, n := Candidates(files, bytes), |vs|;
    forall k | 0 <= k < n ensures k < |all| && vs[k].id == all[k].id {
      VisitNumber(files, vs, bytes, k);
      NoneLost(vs, RoundOf(k), |all|);
    }
    AllCounted(files, vs, bytes);
    if n < |all| { NoneLost(vs, RoundOf(n), |all|); }
    assert n > 0 ==> VisitIds(vs)[n - 1] == vs[n - 1].id;
  }

  lemma {:induction false} NoneLost(vs: seq<Visit>, r: nat, candidates: nat)
    requires LostOnlyAtEnd(vs, candidates) && r <= |vs| && r % MAX_OPEN == 0 && r < candidates
    ensures Losses(vs[..r]) == 0
  {
    LossesGrow(vs, 0, r);
    assert vs[..0] == [];
    forall i | 0 <= i < r ensures !Lost(vs[i]) {
      assert RoundOf(i) + MAX_OPEN <= r;
    }
  }

  /** The candidate after the first round that lost a file is never visited. */
  lemma {:induction false} MissedOne(files: seq<Rec>, vs: seq<Visit>, bytes: nat) returns (m: nat)
    requires IsRun(files, vs, bytes) && Distinct(files) && !LostOnlyAtEnd(vs, |Candidates(files, bytes)|)
    ensures m < |Candidates(files, bytes)|
    ensures forall k :: 0 <= k < |vs| ==> vs[k].id != Candidates(files, bytes)[m].id
  {
    hide Candidates, Passed, Losses, Left, Standing, IsRun;
    var all := Candidates(files, bytes);
    var late :| 0 <= late < |vs| && Lost(vs[late]) && RoundOf(late) + MAX_OPEN < |all|;
    var first := FirstLost(vs, late);
    m := RoundOf(first) + MAX_OPEN;
    CandidatesDistinct(files, bytes);
    forall k | 0 <= k < |vs| ensures vs[k].id != all[m].id {
      VisitNumber(files, vs, bytes, k);
      NumberNotMissed(vs, first, k);
    }
  }

  lemma {:induction false} NumberNotMissed(vs: seq<Visit>, first: nat, k: nat)
    requires first < |vs| && k < |vs| && Lost(vs[first]) && forall i :: 0 <= i < first ==> !Lost(vs[i])
    ensures k + Losses(vs[..RoundOf(k)]) != RoundOf(first) + MAX_OPEN
  {
    hide Losses;
    var m := RoundOf(first) + MAX_OPEN;
    assert vs[..0] == [] && Losses(vs[..0]) == 0 by { NoLosses(); }
    LossesGrow(vs, 0, RoundOf(k));
    assert k < m ==> RoundOf(k) <= first;
    assert k >= m ==> RoundOf(k) >= m;
  }

  lemma {:induction false} NoLosses()
    ensures Losses([]) == 0
  {}

  lemma {:induction false} FirstLost(vs: seq<Visit>, k: nat) returns (first: nat)
    requires k < |vs| && Lost(vs[k])
    ensures first <= k && Lost(vs[first]) && forall i :: 0 <= i < first ==> !Lost(vs[i])
  {
    if i :| 0 <= i < k && Lost(vs[i]) {
      first := FirstLost(vs, i);
    } else {
      first := k;
    }
  }

  /** Whatever fails, no file is visited twice. */
  lemma {:induction false} AtMostOnce(files: seq<Rec>, vs: seq<Visit>, bytes: nat, j: nat, k: nat)
    requires IsRun(files, vs, bytes) && Distinct(files) && j < k < |vs|
    ensures vs[j].id != vs[k].id
  {
    hide Candidates, Passed, Losses, Left, Standing, VisitAt;
    VisitNumber(files, vs, bytes, j);
    VisitNumber(files, vs, bytes, k);
    LossesGrow(vs, RoundOf(j), RoundOf(k));
    CandidatesDistinct(files, bytes);
  }

  // ---- a run that misses a file ---------------------------------------------------------------------

  /** n empty logs of this length, numbered from i. */
  function EmptyLogs(i: nat, n: nat, bytes: nat): seq<Rec>
    decreases n
  {
    if n == 0 then [] else [Rec(i, bytes, 0, true)] + EmptyLogs(i + 1, n - 1, bytes)
  }

  lemma {:induction false} EmptyLogsAre(i: nat, n: nat, bytes: nat)
    ensures |EmptyLogs(i, n, bytes)| == n && Candidates(EmptyLogs(i, n, bytes), bytes) == EmptyLogs(i, n, bytes)
    ensures forall k :: 0 <= k < n ==> EmptyLogs(i, n, bytes)[k] == Rec(i + k, bytes, 0, true)
    decreases n
  {
    if n == 0 {
    } else {
      EmptyLogsAre(i + 1, n - 1, bytes);
      assert EmptyLogs(i, n, bytes)[1..] == EmptyLogs(i + 1, n - 1, bytes);
    }
  }

  /** The first log is deleted but that is taken for an error; the other seven of its round are deleted. */
  function UnluckyVisits(bytes: nat): seq<Visit> {
    seq(MAX_OPEN, k requires 0 <= k < MAX_OPEN =>
      Visit(k, if k == 0 then -1 else 1, 0, EmptyLogs(k, 9 - k, bytes), EmptyLogs(k + 1, 8 - k, bytes)))
  }

  /**
   * Nine empty logs, and an error after the first one's entry is written (its
   * clusters are not freed): the next round passes over the ninth, and the
   * recovery ends without ever visiting it.
   */
  lemma {:induction false} OneIsMissed(bytes: nat)
    ensures var files, vs := EmptyLogs(0, 9, bytes), UnluckyVisits(bytes);
            && Distinct(files) && Finished(files, vs, bytes)
            && Rec(8, bytes, 0, true) in Candidates(After(files, vs), bytes)
            && forall k :: 0 <= k < |vs| ==> vs[k].id != 8
  {
    hide Candidates, EmptyLogs;
    var files, vs := EmptyLogs(0, 9, bytes), UnluckyVisits(bytes);
    EmptyLogsAre(0, 9, bytes);
    EmptyLogsAre(8, 1, bytes);
    assert vs[..0] == [] && vs[..8] == vs;
    forall k | 0 <= k < |vs| ensures VisitAt(files, vs, bytes, k) {
      UnluckyStep(k, bytes);
    }
    UnluckyPassed(bytes);
    assert After(files, vs) == EmptyLogs(8, 1, bytes);
    assert EmptyLogs(8, 1, bytes)[0] == Rec(8, bytes, 0, true);
  }

  lemma {:induction false} UnluckyStep(k: nat, bytes: nat)
    requires k < MAX_OPEN
    ensures VisitAt(EmptyLogs(0, 9, bytes), UnluckyVisits(bytes), bytes, k)
  {
    hide Candidates, EmptyLogs, Without, Retyped;
    var files, vs := EmptyLogs(0, 9, bytes), UnluckyVisits(bytes);
    var v := vs[k];
    EmptyLogsAre(0, 9, bytes);
    OneDeleted(k, 9 - k, bytes);
    assert Step(v);
    assert vs[..0] == [] && RoundOf(k) == 0;
    assert Pick(files, [], bytes) == files[0..8];
    if k > 0 { assert vs[..k][k - 1] == vs[k - 1]; }
    assert v.before == After(files, vs[..k]);
  }

  lemma {:induction false} OneDeleted(k: nat, n: nat, bytes: nat)
    requires n > 0
    ensures Without(EmptyLogs(k, n, bytes), k) == EmptyLogs(k + 1, n - 1, bytes)
  {
    var s := EmptyLogs(k, n, bytes);
    EmptyLogsAre(k + 1, n - 1, bytes);
    assert s[1..] == EmptyLogs(k + 1, n - 1, bytes);
    WithoutNone(s[1..], k);
  }

  lemma {:induction false} UnluckyPassed(bytes: nat)
    ensures Passed(UnluckyVisits(bytes)) == 1
  {
    var vs := UnluckyVisits(bytes);
    assert vs[..0] == [] && vs[..8] == vs;
    OnlyFirstPassed(vs, 8);
  }

  lemma {:induction false} OnlyFirstPassed(vs: seq<Visit>, k: nat)
    requires 0 < k <= |vs| && vs[0].res <= 0 && forall i :: 0 < i < |vs| ==> vs[i].res > 0
    ensures Passed(vs[..k]) == 1
  {
    OneMore(vs, k - 1);
    if k > 1 { OnlyFirstPassed(vs, k - 1); } else { assert vs[..0] == []; }
  }

  /** How often n can be halved. */
  function Halvings(n: nat): nat {
    if n == 0 then 0 else 1 + Halvings(n / 2)
  }

  lemma {:induction false} FewerHalvings(m: int, n: nat)
    requires m <= n
    ensures m >= 0 ==> Halvings(m) <= Halvings(n)
  {
    if m > 0 { FewerHalvings(m / 2, n / 2); }
  }

  // ---- recovery -----------------------------------------------------------------------------------

  class Logs {
    const reliable: bool                // no read or write fails (nor is a chain of clusters broken)
    const framed: (nat, nat) -> bool    // (file, block): the block's frames are both there
    const blank: nat -> bool            // the file's first sector is clear, or starts as a log's
    const placed: nat -> bool           // its first cluster is in the volume
    const oneSector: nat -> bool        // its entry set is in one sector, as exfat_create puts it
    var files: seq<Rec>
    ghost var visits: seq<Visit>

    function Frames(id: nat): nat -> bool {
      (k: nat) => framed(id, k)
    }

    method ReadFails() returns (err: int)
      ensures err <= 0 && (reliable ==> err == 0)
    {
      err := *;
      if err > 0 {
        err := -1;
      }
      if reliable {
        err := 0;
      }
    }

    /** written: whether block k has its frame, read at both its ends. */
    method ReadFrame(id: nat, k: nat) returns (err: int, whole: bool)
      ensures err <= 0 && (reliable ==> err == 0)
      ensures err == 0 ==> whole == framed(id, k)
    {
      whole := *;
      err := ReadFails();
      if err == 0 {
        err := ReadFails();
      }
      if err == 0 {
        whole := framed(id, k);
      }
    }

    /** The file's first sector: clear, or a log's. */
    method ReadStart(id: nat) returns (err: int, empty: bool)
      ensures err <= 0 && (reliable ==> err == 0)
      ensures err == 0 ==> empty == blank(id)
    {
      empty := *;
      err := ReadFails();
      if err == 0 {
        empty := blank(id);
      }
    }

    /** dl_find_end: by halves, to a block that ends the log where it looks. It looks at few of them. */
    method FindEnd(id: nat, blocks: nat) returns (n: int, ghost looks: nat)
      ensures reliable ==> n >= 0
      ensures looks <= 1 + Halvings(blocks)
      ensures n >= 0 ==> n <= blocks && (n > 0 ==> framed(id, 0) && framed(id, n - 1)) && (n < blocks ==> !framed(id, n))
      ensures n >= 0 ==> forall w :: InOrder(Frames(id), blocks, w) ==> n == w
    {
      assert forall k: nat :: Frames(id)(k) == framed(id, k);
      looks := 0;
      var err := ReadFails();
      if err != 0 {
        return err, looks;
      }
      if blocks == 0 {
        return 0, looks;
      }
      var whole;
      err, whole := ReadFrame(id, 0);
      looks := 1;
      if err != 0 || !whole {
        return err, looks;
      }
      var lo, hi := 1, blocks;
      FewerHalvings(hi - lo, blocks);
      while lo < hi
        invariant 1 <= lo <= hi <= blocks
        invariant framed(id, lo - 1) && (hi < blocks ==> !framed(id, hi))
        invariant looks + Halvings(hi - lo) <= 1 + Halvings(blocks)
      {
        var mid := lo + (hi - lo) / 2;
        FewerHalvings(hi - mid - 1, (hi - lo) / 2);
        err, whole := ReadFrame(id, mid);
        looks := looks + 1;
        if err != 0 {
          return err, looks;
        }
        if whole {
          lo := mid + 1;
        } else {
          hi := mid;
        }
      }
      n := lo;
    }

    /** exfat_list with gather: the candidates, unless the listing fails. */
    method List(bytes: nat, skip: nat) returns (err: int, o: seq<Rec>)
      ensures err <= 0 && (reliable ==> err == 0)
      ensures err == 0 ==> o == Picked(Candidates(files, bytes), skip)
    {
      o := *;
      err := ReadFails();
      if err == 0 {
        o := Gather(bytes, skip);
      }
    }

    /** exfat_list's callback: the candidates after the first `skip`, eight at most. */
    method Gather(bytes: nat, skip: nat) returns (o: seq<Rec>)
      ensures o == Picked(Candidates(files, bytes), skip)
    {
      hide Candidates;
      o := [];
      var i, seen := 0, 0;
      assert Candidates(files[..0], bytes) == [] by { NoCandidates(bytes); assert files[..0] == []; }
      while i < |files|
        invariant 0 <= i <= |files| && seen == |Candidates(files[..i], bytes)|
        invariant o == Picked(Candidates(files[..i], bytes), skip) && |o| < MAX_OPEN
      {
        var f := files[i];
        assert files[..i + 1] == files[..i] + [f];
        CandidatesConcat(files[..i], [f], bytes);
        OneCandidate(f, bytes);
        assert files == files[..i + 1] + files[i + 1..];
        CandidatesConcat(files[..i + 1], files[i + 1..], bytes);
        if Candidate(f, bytes) {
          if seen >= skip {
            o := o + [f];
          }
          seen := seen + 1;
          if |o| == MAX_OPEN {
            return;
          }
        }
        i := i + 1;
      }
      assert files[..i] == files;
    }

    /**
     * exfat_trim, as far as this goes: the entry is written first, and an
     * error after that leaves the file trimmed.
     */
    method TrimFile(id: nat, length: nat) returns (err: int)
      modifies `files
      ensures err <= 0 && (files == old(files) || files == Retyped(old(files), id, length))
      ensures err == 0 ==> files == Retyped(old(files), id, length)
      ensures reliable ==> if oneSector(id) then err == 0 else files == old(files)
    {
      err := if oneSector(id) then 0 else -1;
      if err == 0 {
        err := ReadFails();
        var written: bool := *;
        if err == 0 || written {
          files := Retyped(files, id, length);
        }
      }
    }

    /** exfat_delete, in the same way. */
    method DeleteFile(id: nat) returns (err: int)
      modifies `files
      ensures err <= 0 && (files == old(files) || files == Without(old(files), id))
      ensures err == 0 ==> files == Without(old(files), id)
      ensures reliable ==> if oneSector(id) then err == 0 else files == old(files)
    {
      err := if oneSector(id) then 0 else -1;
      if err == 0 {
        err := ReadFails();
        var written: bool := *;
        if err == 0 || written {
          files := Without(files, id);
        }
      }
    }

    /** What becomes of an in-order log of w whole blocks when nothing fails. */
    predicate Recovered(v: Visit, w: nat) {
      if !placed(v.id) then v.res == 0
      else if w > 0 then v.res == 1 && v.blocks == w
      else v.blocks == 0 && v.res == if blank(v.id) then 1 else 0
    }

    /** A visit without an error has done what was due. */
    ghost predicate Due(v: Visit, bytes: nat) {
      v.res >= 0 ==> forall w :: InOrder(Frames(v.id), bytes / RECORD, w) ==> Recovered(v, w)
    }

    /** recover_one: 1 if the file is closed or deleted, 0 if it stays, or an error. */
    method RecoverOne(id: nat, bytes: nat) returns (res: int, blocks: nat)
      modifies `files
      ensures Step(Visit(id, res, blocks, old(files), files)) && Due(Visit(id, res, blocks, old(files), files), bytes)
      ensures reliable ==> !Lost(Visit(id, res, blocks, old(files), files)) && (oneSector(id) ==> res >= 0)
      ensures blocks > 0 ==> placed(id) && framed(id, 0) && framed(id, blocks - 1) && (blocks < bytes / RECORD ==> !framed(id, blocks))
    {
      blocks := 0;
      if !placed(id) {
        return 0, 0;
      }
      var n, _ := FindEnd(id, bytes / RECORD);
      if n < 0 {
        return n, 0;
      }
      if n > 0 {
        blocks := n;
        var err := TrimFile(id, n * RECORD);
        return if err != 0 then err else 1, blocks;
      }
      var err, empty := ReadStart(id);
      if err != 0 {
        return err, 0;
      }
      if !empty {
        return 0, 0;
      }
      err := DeleteFile(id);
      res := if err != 0 then err else 1;
    }

    /** An in-order log has been trimmed to its whole blocks, or is gone if it had none. */
    ghost predicate Settled(fs: seq<Rec>, id: nat, bytes: nat) {
      forall w: nat :: InOrder(Frames(id), bytes / RECORD, w) && placed(id) ==>
        if w > 0 then HasLength(fs, id, w * RECORD) else blank(id) ==> !Present(fs, id)
    }

    lemma {:induction false} NowSettled(v: Visit, bytes: nat)
      requires Step(v) && Due(v, bytes) && v.res >= 0 && Present(v.before, v.id)
      ensures Settled(v.after, v.id, bytes)
    {
      forall w: nat | InOrder(Frames(v.id), bytes / RECORD, w) && placed(v.id)
        ensures if w > 0 then HasLength(v.after, v.id, w * RECORD) else blank(v.id) ==> !Present(v.after, v.id)
      {
        assert Recovered(v, w);
        if w > 0 {
          RetypedIs(v.before, v.id, w * RECORD);
          var k :| 0 <= k < |v.before| && v.before[k].id == v.id;
          assert v.after[k] in v.after;
        } else {
          WithoutIs(v.before, v.id);
        }
      }
    }

    lemma {:induction false} SettledStays(before: seq<Rec>, after: seq<Rec>, id: nat, other: nat, bytes: nat)
      requires Settled(before, id, bytes) && OnlyChanged(before, after, other) && id != other
      ensures Settled(after, id, bytes)
    {
      hide Distinct;
      WithoutIs(before, other);
      WithoutIs(after, other);
      assert forall f: Rec :: f.id == id ==> (f in before <==> f in Without(before, other));
      assert forall f: Rec :: f.id == id ==> (f in after <==> f in Without(after, other));
      assert forall f: Rec :: f.id == id ==> (f in before <==> f in after);
    }

    /** In every run, what a visit without an error settled is settled at the end. */
    lemma {:induction false} SettledInEnd(fs: seq<Rec>, vs: seq<Visit>, bytes: nat, k: nat, n: nat)
      requires IsRun(fs, vs, bytes) && Distinct(fs) && k < n <= |vs|
      requires Due(vs[k], bytes) && vs[k].res >= 0
      ensures Settled(vs[n - 1].after, vs[k].id, bytes)
      decreases n
    {
      hide Distinct, Settled, Due, VisitAt, IsRun, OnlyChanged, Step;
      var v := vs[n - 1];
      Chained(fs, vs, bytes, n - 1);
      OneChanged(fs, vs, bytes, n - 1);
      if k == n - 1 {
        NowSettled(v, bytes);
      } else {
        SettledInEnd(fs, vs, bytes, k, n - 1);
        AtMostOnce(fs, vs, bytes, k, n - 1);
        SettledStays(v.before, v.after, vs[k].id, v.id, bytes);
      }
    }

    /** How many of these logs have whole blocks. */
    function Started(s: seq<Rec>, whole: nat -> nat): nat {
      if s == [] then 0
      else Started(s[..|s| - 1], whole) + if placed(s[|s| - 1].id) && whole(s[|s| - 1].id) > 0 then 1 else 0
    }

    /** These logs were written in order, this many whole blocks each, in files like exfat_create's. */
    ghost predicate AllInOrder(all: seq<Rec>, bytes: nat, whole: nat -> nat) {
      forall r :: r in all ==> oneSector(r.id) && InOrder(Frames(r.id), bytes / RECORD, whole(r.id))
    }

    lemma {:induction false} ClosedAreStarted(fs: seq<Rec>, vs: seq<Visit>, bytes: nat, whole: nat -> nat)
      requires VisitIds(vs) == Ids(Candidates(fs, bytes)) && AllInOrder(Candidates(fs, bytes), bytes, whole)
      requires forall k :: 0 <= k < |vs| ==> Due(vs[k], bytes) && (oneSector(vs[k].id) ==> vs[k].res >= 0)
      ensures Closed(vs) == Started(Candidates(fs, bytes), whole)
    {
      var all := Candidates(fs, bytes);
      forall k | 0 <= k < |vs| ensures |all| == |vs| && vs[k].id == all[k].id && vs[k].res >= 0 {
        assert VisitIds(vs)[k] == Ids(all)[k] && all[k] in all;
      }
      assert |VisitIds(vs)| == |Ids(all)|;
      StartedOnes(vs, all, bytes, whole);
    }

    lemma {:induction false} StartedOnes(vs: seq<Visit>, all: seq<Rec>, bytes: nat, whole: nat -> nat)
      requires |vs| == |all| && AllInOrder(all, bytes, whole)
      requires forall k :: 0 <= k < |vs| ==> vs[k].id == all[k].id && vs[k].res >= 0 && Due(vs[k], bytes)
      ensures Closed(vs) == Started(all, whole)
    {
      if vs == [] {
      } else {
        var n := |vs| - 1;
        assert all[n] in all && Recovered(vs[n], whole(all[n].id));
        StartedOnes(vs[..n], all[..n], bytes, whole);
      }
    }

    lemma {:induction false} RunKeeps(fs: seq<Rec>, vs: seq<Visit>, bytes: nat)
      requires IsRun(fs, vs, bytes) && Distinct(fs) && forall k :: 0 <= k < |vs| ==> Due(vs[k], bytes)
      ensures forall k :: 0 <= k < |vs| && vs[k].res >= 0 ==> Settled(After(fs, vs), vs[k].id, bytes)
      ensures forall f :: f in fs && !Candidate(f, bytes) ==> f in After(fs, vs)
    {
      hide Distinct, Settled, Due, IsRun;
      forall k | 0 <= k < |vs| && vs[k].res >= 0 ensures Settled(After(fs, vs), vs[k].id, bytes) {
        SettledInEnd(fs, vs, bytes, k, |vs|);
      }
      OthersUntouched(fs, vs, bytes, |vs|);
      assert vs[..|vs|] == vs;
    }

    /**
     * log_recover: in rounds of eight, over a directory it changes. Whatever
     * fails, it ends, its visits are a run, and what a visit without an error
     * did stays done. When no read or write fails each candidate there was is
     * visited exactly once, in order.
     */
    method Recover(bytes: nat, ghost whole: nat -> nat) returns (closed: int)
      requires Distinct(files) && visits == []
      modifies `files, `visits
      ensures IsRun(old(files), visits, bytes) && files == After(old(files), visits)
      ensures closed >= 0 ==> Finished(old(files), visits, bytes) && closed == Closed(visits)
      ensures forall k :: 0 <= k < |visits| && visits[k].res >= 0 ==> Due(visits[k], bytes) && Settled(files, visits[k].id, bytes)
      ensures forall f :: f in old(files) && (f.length != bytes || f.valid != 0 || !f.plain) ==> f in files
      ensures forall k :: 0 <= k < |visits| ==> LooksOpen(old(files), visits[k].id, bytes)
      ensures reliable ==> forall f :: f in old(files) && f.length == bytes && f.valid == 0 && f.plain ==> f.id in VisitIds(visits)
      ensures reliable ==> closed >= 0 && VisitIds(visits) == Ids(Candidates(old(files), bytes))
      ensures reliable ==> forall k :: 0 <= k < |visits| && oneSector(visits[k].id) ==> visits[k].res >= 0
      ensures reliable && AllInOrder(Candidates(old(files), bytes), bytes, whole)
              ==> closed == Started(Candidates(old(files), bytes), whole)
    {
      hide Candidates, Distinct, Passed, Losses, Standing, VisitAt, Picked, Settled, Due, AllInOrder, Closed;
      closed := 0;
      var skip: nat := 0;
      ghost var fs := files;
      ghost var all := Candidates(files, bytes);
      NothingYet(fs, bytes);
      while true
        invariant IsRun(fs, visits, bytes) && files == After(fs, visits) && |visits| % MAX_OPEN == 0
        invariant skip == Passed(visits) && 0 <= closed == Closed(visits)
        invariant forall k :: 0 <= k < |visits| ==> Due(visits[k], bytes)
        invariant reliable ==> forall k :: 0 <= k < |visits| ==> Fair(visits[k])
        decreases |all| - |visits|
      {
        var err, o := List(bytes, skip);
        if err < 0 {
          closed := err;
          RunKeeps(fs, visits, bytes);
          VisitedAre(fs, visits, bytes);
          return;
        }
        ghost var was := visits;
        AtMostEight(Candidates(files, bytes), skip);
        closed, skip := Round(o, bytes, closed, skip, fs);
        assert visits[..|was|] == was;
        if |o| < MAX_OPEN {
          assert visits[..RoundOf(|visits|)] == was;
          RunKeeps(fs, visits, bytes);
          VisitedAre(fs, visits, bytes);
          if reliable {
            EachOnce(fs, visits, bytes);
            AllVisited(fs, visits, bytes);
            if AllInOrder(all, bytes, whole) {
              ClosedAreStarted(fs, visits, bytes, whole);
            }
          }
          return;
        }
        VisitNumber(fs, visits, bytes, |visits| - 1);
      }
    }

    /** What is certain of a visit when no read or write fails. */
    predicate Fair(v: Visit) {
      !Lost(v) && (oneSector(v.id) ==> v.res >= 0)
    }

    /** The candidates of a round, one after another. */
    method Round(o: seq<Rec>, bytes: nat, closed0: int, skip0: nat, ghost fs: seq<Rec>) returns (closed: int, skip: nat)
      requires |visits| % MAX_OPEN == 0 && |o| <= MAX_OPEN && o == Pick(fs, visits, bytes)
      requires IsRun(fs, visits, bytes) && files == After(fs, visits)
      requires skip0 == Passed(visits) && 0 <= closed0 == Closed(visits)
      requires forall k :: 0 <= k < |visits| ==> Due(visits[k], bytes)
      requires reliable ==> forall k :: 0 <= k < |visits| ==> Fair(visits[k])
      modifies `files, `visits
      ensures |visits| == |old(visits)| + |o| && visits[..|old(visits)|] == old(visits)
      ensures IsRun(fs, visits, bytes) && files == After(fs, visits)
      ensures skip == Passed(visits) && 0 <= closed == Closed(visits)
      ensures forall k :: 0 <= k < |visits| ==> Due(visits[k], bytes)
      ensures reliable ==> forall k :: 0 <= k < |visits| ==> Fair(visits[k])
    {
      hide Passed, Closed, VisitAt, Pick, Step, Lost, Due;
      closed, skip := closed0, skip0;
      ghost var was := visits;
      var i := 0;
      while i < |o|
        invariant 0 <= i <= |o| && |visits| == |was| + i && visits[..|was|] == was
        invariant IsRun(fs, visits, bytes) && files == After(fs, visits)
        invariant skip == Passed(visits) && 0 <= closed == Closed(visits)
        invariant forall k :: 0 <= k < |visits| ==> Due(visits[k], bytes)
        invariant reliable ==> forall k :: 0 <= k < |visits| ==> Fair(visits[k])
      {
        ghost var before := files;
        var res, blocks := RecoverOne(o[i].id, bytes);
        ghost var v := Visit(o[i].id, res, blocks, before, files);
        RunMore(fs, visits, bytes, v, o);
        CountMore(visits, v);
        if res <= 0 {
          skip := skip + 1;
        } else if blocks != 0 {
          closed := closed + 1;
        }
        visits := visits + [v];
        i := i + 1;
      }
    }
  }

  lemma {:induction false} NothingYet(files: seq<Rec>, bytes: nat)
    ensures IsRun(files, [], bytes) && Passed([]) == 0 && Closed([]) == 0
  {}

  lemma {:induction false} AtMostEight(c: seq<Rec>, skip: nat)
    ensures |Picked(c, skip)| <= MAX_OPEN
  {}

  lemma {:induction false} CountMore(vs: seq<Visit>, v: Visit)
    requires Step(v)
    ensures Passed(vs + [v]) == Passed(vs) + if v.res <= 0 then 1 else 0
    ensures Closed(vs + [v]) == Closed(vs) + if v.res > 0 && v.blocks > 0 then 1 else 0
  {
    assert (vs + [v])[..|vs|] == vs;
  }

  /** The next file of the round is visited. */
  lemma {:induction false} RunMore(files: seq<Rec>, vs: seq<Visit>, bytes: nat, v: Visit, o: seq<Rec>)
    requires IsRun(files, vs, bytes) && Step(v) && v.before == After(files, vs)
    requires o == Pick(files, vs[..RoundOf(|vs|)], bytes)
    requires |vs| - RoundOf(|vs|) < |o| && v.id == o[|vs| - RoundOf(|vs|)].id
    ensures IsRun(files, vs + [v], bytes)
  {
    hide Pick, Step;
    var next := vs + [v];
    forall k | 0 <= k < |next| ensures VisitAt(files, next, bytes, k) {
      assert next[..RoundOf(k)] == vs[..RoundOf(k)] && next[..k] == vs[..k];
      if k < |vs| { assert VisitAt(files, vs, bytes, k); } else { assert vs[..k] == vs; }
    }
  }

  lemma {:induction false} Chained(files: seq<Rec>, vs: seq<Visit>, bytes: nat, k: nat)
    requires IsRun(files, vs, bytes) && k < |vs|
    ensures Step(vs[k]) && vs[k].before == After(files, vs[..k])
  {
    assert VisitAt(files, vs, bytes, k);
  }

  /** A visit of a run changes its own file only, which is there. */
  lemma {:induction false} OneChanged(files: seq<Rec>, vs: seq<Visit>, bytes: nat, k: nat)
    requires IsRun(files, vs, bytes) && Distinct(files) && k < |vs|
    ensures OnlyChanged(vs[k].before, vs[k].after, vs[k].id) && Present(vs[k].before, vs[k].id)
    ensures forall f :: f in vs[k].before && !Candidate(f, bytes) ==> f in vs[k].after
  {
    hide Candidates, Distinct, Passed, Losses, Left, OnlyChanged, Without, Retyped;
    var v, r := vs[k], RoundOf(k);
    VisitNumber(files, vs, bytes, k);
    assert VisitAt(files, vs, bytes, k);
    var c, all := Candidates(v.before, bytes), Candidates(files, bytes);
    var q := Passed(vs[..k]) - Losses(vs[..k]) + Losses(vs[..r]);
    LeftEnds(c, q, all, k + Losses(vs[..r]));
    assert c[q] in c && c[q].id == v.id by { LeftAt(c, q, all, k + Losses(vs[..r]), 0); }
    AfterStep(v, bytes, c[q]);
    OthersStay(v.before, v.after, bytes, c[q]);
  }

  /** Files that are no candidates are untouched by a run. */
  lemma {:induction false} OthersUntouched(files: seq<Rec>, vs: seq<Visit>, bytes: nat, n: nat)
    requires IsRun(files, vs, bytes) && Distinct(files) && n <= |vs|
    ensures forall f :: f in files && !Candidate(f, bytes) ==> f in After(files, vs[..n])
  {
    if n == 0 {
    } else {
      hide Distinct, IsRun, OnlyChanged, Step, Candidate;
      OthersUntouched(files, vs, bytes, n - 1);
      OneChanged(files, vs, bytes, n - 1);
      Chained(files, vs, bytes, n - 1);
    }
  }

  /** Files that are no candidates are untouched; a candidate is a file. */
  lemma {:induction false} OthersStay(files: seq<Rec>, files': seq<Rec>, bytes: nat, r: Rec)
    requires Distinct(files) && OnlyChanged(files, files', r.id) && r in Candidates(files, bytes)
    ensures Present(files, r.id)
    ensures forall f :: f in files && !Candidate(f, bytes) ==> f in files'
  {
    CandidatesAre(files, bytes);
    var k :| 0 <= k < |files| && files[k] == r;
    WithoutIs(files, r.id);
    WithoutIs(files', r.id);
    forall f | f in files && !Candidate(f, bytes) ensures f in files' {
      var j :| 0 <= j < |files| && files[j] == f;
      assert j != k && f.id != r.id;
      assert f in Without(files, r.id);
    }
  }
}

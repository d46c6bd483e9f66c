/** `get_osd_status`: the OSD lists read from the text of `ceph osd dump`
    (in / out / up / down, one line per OSD starting with `osd.N`) and from the
    OSD daemons teuthology runs (live / dead). */
module OsdStatus {
  import opened Cluster
  import opened Text
  import opened Lists

  /** An OSD daemon as teuthology sees it. */
  datatype Daemon = Daemon(id: int, running: bool)

  datatype Status = Status(
    inOsds: seq<int>, outOsds: seq<int>, upOsds: seq<int>, downOsds: seq<int>,
    deadOsds: seq<int>, liveOsds: seq<int>, raw: seq<string>)

  /** A dump line that describes an OSD: it starts with `osd.` and mentions
      "up" or "down" anywhere. */
  predicate IsOsdLine(line: string)
  {
    StartsWith(line, "osd.") && (ContainsSub(line, "up") || ContainsSub(line, "down"))
  }

  /** The lines of `lines` that satisfy `IsOsdLine`, in order. */
  function OsdLines(lines: seq<string>): (r: seq<string>)
    ensures forall k :: 0 <= k < |r| ==> IsOsdLine(r[k]) && r[k] in lines
    ensures forall l :: l in lines && IsOsdLine(l) ==> l in r
  {
    if lines == [] then []
    else (if IsOsdLine(lines[0]) then [lines[0]] else []) + OsdLines(lines[1..])
  }

  /** The lines that contain `tag` (such as " in "), in order. */
  function Tagged(lines: seq<string>, tag: string): (r: seq<string>)
    ensures |r| <= |lines|
    ensures forall k :: 0 <= k < |r| ==> ContainsSub(r[k], tag) && r[k] in lines
    ensures forall l :: l in lines && ContainsSub(l, tag) ==> l in r
  {
    if lines == [] then []
    else (if ContainsSub(lines[0], tag) then [lines[0]] else []) + Tagged(lines[1..], tag)
  }

  /** `int(line[4:].split()[0])`: the id after `osd.`; IndexError when nothing
      but blanks follows, ValueError when the first field is not a number. */
  function OsdId(line: string): Result<int>
  {
    var rest := if |line| >= 4 then line[4..] else "";
    match FirstField(rest)
    case None => Err(IndexError)
    case Some(w) =>
      match ParseInt(w)
      case None => Err(ValueError)
      case Some(n) => Ok(n)
  }

  /** The parse result of each line, in order. */
  function ParseIds(lines: seq<string>): (rs: seq<Result<int>>)
    ensures |rs| == |lines| && forall k :: 0 <= k < |lines| ==> rs[k] == OsdId(lines[k])
  {
    seq(|lines|, k requires 0 <= k < |lines| => OsdId(lines[k]))
  }

  /** The values of `rs`, or the fault of its first failure: a list
      comprehension over the lines, stopped by the first exception. */
  function Collect(rs: seq<Result<int>>): (r: Result<seq<int>>)
    ensures r.Ok? <==> forall k :: 0 <= k < |rs| ==> rs[k].Ok?
    ensures r.Ok? ==> |r.value| == |rs|
    ensures r.Ok? ==> forall k :: 0 <= k < |rs| ==> r.value[k] == rs[k].value
    ensures r.Err? ==> exists k :: 0 <= k < |rs| && rs[k] == Err(r.fault) && (forall j :: 0 <= j < k ==> rs[j].Ok?)
  {
    if rs == [] then Ok([])
    else if rs[0].Err? then Err(rs[0].fault)
    else
      var rest := Collect(rs[1..]);
      if rest.Err? then
        ghost var k :| 0 <= k < |rs[1..]| && rs[1..][k] == Err(rest.fault) && (forall j :: 0 <= j < k ==> rs[1..][j].Ok?);
        assert rs[k + 1] == Err(rest.fault);
        rest
      else
        Ok([rs[0].value] + rest.value)
  }

  /** Line `k` is the first whose id does not parse, and it raises `f`. */
  predicate FailsFirstAt(lines: seq<string>, k: int, f: Fault)
  {
    0 <= k < |lines| && OsdId(lines[k]) == Err(f) && forall j :: 0 <= j < k ==> OsdId(lines[j]).Ok?
  }

  /** The ids of the given lines, stopping at the first line whose id does not parse. */
  function IdsOf(lines: seq<string>): (r: Result<seq<int>>)
    ensures r.Ok? <==> forall k :: 0 <= k < |lines| ==> OsdId(lines[k]).Ok?
    ensures r.Ok? ==> |r.value| == |lines|
    ensures r.Ok? ==> forall k :: 0 <= k < |lines| ==> r.value[k] == OsdId(lines[k]).value
  {
    Collect(ParseIds(lines))
  }

  /** A failing parse raises the fault of the first line whose id does not parse. */
  lemma IdsOfFault(lines: seq<string>) returns (k: int)
    requires IdsOf(lines).Err?
    ensures FailsFirstAt(lines, k, IdsOf(lines).fault)
  {
    var rs := ParseIds(lines);
    k :| 0 <= k < |rs| && rs[k] == Err(Collect(rs).fault) && (forall j :: 0 <= j < k ==> rs[j].Ok?);
    forall j | 0 <= j < k ensures OsdId(lines[j]).Ok? {
      assert rs[j] == OsdId(lines[j]);
    }
  }

  /** The ids of the daemons whose running state is `running`, in order. */
  function DaemonIds(daemons: seq<Daemon>, running: bool): (ids: seq<int>)
    ensures |ids| <= |daemons|
  {
    if daemons == [] then []
    else (if daemons[0].running == running then [daemons[0].id] else []) + DaemonIds(daemons[1..], running)
  }

  function AllIds(daemons: seq<Daemon>): (ids: seq<int>)
    ensures |ids| == |daemons| && forall k :: 0 <= k < |daemons| ==> ids[k] == daemons[k].id
  {
    if daemons == [] then [] else [daemons[0].id] + AllIds(daemons[1..])
  }

  /** Every OSD line of `dump` that mentions `tag` has an id that parses. */
  predicate ParsesUnder(dump: string, tag: string)
  {
    IdsOf(Tagged(OsdLines(Split(dump, '\n')), tag)).Ok?
  }

  /** `get_osd_status` for the dump text `dump` and teuthology's `daemons`. */
  function GetOsdStatus(dump: string, daemons: seq<Daemon>): (r: Result<Status>)
    ensures r.Ok? ==> r.value.raw == OsdLines(Split(dump, '\n'))
    ensures r.Ok? <==> ParsesUnder(dump, " in ") && ParsesUnder(dump, " out ") && ParsesUnder(dump, " up ") && ParsesUnder(dump, " down ")
    ensures r.Ok? ==> |r.value.liveOsds| + |r.value.deadOsds| == |daemons|
  {
    var lines := OsdLines(Split(dump, '\n'));
    var ins :- IdsOf(Tagged(lines, " in "));
    var outs :- IdsOf(Tagged(lines, " out "));
    var ups :- IdsOf(Tagged(lines, " up "));
    var downs :- IdsOf(Tagged(lines, " down "));
    DaemonsSplit(daemons);
    Ok(Status(ins, outs, ups, downs, DaemonIds(daemons, false), DaemonIds(daemons, true), lines))
  }

  /** Every OSD line of the dump that says " in " puts its id in the in list,
      and likewise for " up ". */
  lemma ListedOsd(dump: string, daemons: seq<Daemon>, line: string)
    requires GetOsdStatus(dump, daemons).Ok?
    requires line in Split(dump, '\n') && IsOsdLine(line)
    ensures ContainsSub(line, " in ") ==> OsdId(line).Ok? && OsdId(line).value in GetOsdStatus(dump, daemons).value.inOsds
    ensures ContainsSub(line, " up ") ==> OsdId(line).Ok? && OsdId(line).value in GetOsdStatus(dump, daemons).value.upOsds
  {
    var lines := OsdLines(Split(dump, '\n'));
    assert line in lines;
    var st := GetOsdStatus(dump, daemons).value;
    if ContainsSub(line, " in ") {
      var tagged := Tagged(lines, " in ");
      var k :| 0 <= k < |tagged| && tagged[k] == line;
      assert st.inOsds == IdsOf(tagged).value;
      assert st.inOsds[k] == OsdId(line).value;
    }
    if ContainsSub(line, " up ") {
      var tagged := Tagged(lines, " up ");
      var k :| 0 <= k < |tagged| && tagged[k] == line;
      assert st.upOsds == IdsOf(tagged).value;
      assert st.upOsds[k] == OsdId(line).value;
    }
  }

  /** Some OSD line of `raw` mentions `tag` and has the id `x`. */
  ghost predicate Listed(raw: seq<string>, tag: string, x: int)
  {
    exists l :: l in raw && ContainsSub(l, tag) && OsdId(l) == Ok(x)
  }

  /** When every line's id parses, an id is among the ids exactly when some line has it. */
  lemma IdsOfExact(lines: seq<string>, x: int)
    requires IdsOf(lines).Ok?
    ensures x in IdsOf(lines).value <==> exists l :: l in lines && OsdId(l) == Ok(x)
  {
    var ids := IdsOf(lines).value;
    if x in ids {
      var k :| 0 <= k < |ids| && ids[k] == x;
      assert OsdId(lines[k]) == Ok(x);
    }
    if l :| l in lines && OsdId(l) == Ok(x) {
      var k :| 0 <= k < |lines| && lines[k] == l;
      assert ids[k] == x;
    }
  }

  /** Each of the four lists holds exactly the ids of the OSD lines of the dump
      that mention its tag. */
  lemma StatusListsExact(dump: string, daemons: seq<Daemon>, x: int)
    requires GetOsdStatus(dump, daemons).Ok?
    ensures var st := GetOsdStatus(dump, daemons).value;
      && (x in st.inOsds <==> Listed(st.raw, " in ", x))
      && (x in st.outOsds <==> Listed(st.raw, " out ", x))
      && (x in st.upOsds <==> Listed(st.raw, " up ", x))
      && (x in st.downOsds <==> Listed(st.raw, " down ", x))
  {
    var lines := OsdLines(Split(dump, '\n'));
    TaggedExact(lines, " in ", x);
    TaggedExact(lines, " out ", x);
    TaggedExact(lines, " up ", x);
    TaggedExact(lines, " down ", x);
  }

  /** The ids of the lines that mention `tag`, when they all parse, are those of
      `Listed`. */
  lemma TaggedExact(lines: seq<string>, tag: string, x: int)
    requires IdsOf(Tagged(lines, tag)).Ok?
    ensures x in IdsOf(Tagged(lines, tag)).value <==> Listed(lines, tag, x)
  {
    var tagged := Tagged(lines, tag);
    IdsOfExact(tagged, x);
    if l :| l in tagged && OsdId(l) == Ok(x) {
      assert l in lines && ContainsSub(l, tag);
    }
    if l :| l in lines && ContainsSub(l, tag) && OsdId(l) == Ok(x) {
      assert l in tagged;
    }
  }

  /** Live and dead split the daemons: together they hold every daemon's id
      exactly as often as the daemon list does. */
  lemma {:induction false} DaemonsSplit(daemons: seq<Daemon>)
    ensures multiset(DaemonIds(daemons, true)) + multiset(DaemonIds(daemons, false)) == multiset(AllIds(daemons))
    ensures |DaemonIds(daemons, true)| + |DaemonIds(daemons, false)| == |daemons|
  {
    if daemons != [] {
      DaemonsSplit(daemons[1..]);
      assert AllIds(daemons) == [daemons[0].id] + AllIds(daemons[1..]);
    }
  }

  /** When teuthology knows each OSD once, the live and dead lists partition the
      OSD ids, which is the Thrasher's live/dead invariant at start-up. */
  lemma LiveDeadPartition(daemons: seq<Daemon>)
    requires NoDup(AllIds(daemons))
    ensures Partitions(DaemonIds(daemons, true), DaemonIds(daemons, false), Elems(AllIds(daemons)))
  {
    DaemonsSplit(daemons);
    NoDupMultiset(AllIds(daemons));
  }

  /** The line `osd.N` followed by nothing or by a blank reads back as `N`. */
  lemma OsdIdOfLine(n: nat, rest: string)
    requires rest == [] || IsSpace(rest[0])
    ensures OsdId("osd." + Decimal(n) + rest) == Ok(n)
  {
    var line := "osd." + Decimal(n) + rest;
    assert line[4..] == Decimal(n) + rest;
    forall k | 0 <= k < |Decimal(n)| ensures !IsSpace(Decimal(n)[k]) {
      assert IsDigit(Decimal(n)[k]);
    }
    FirstFieldOfWord(Decimal(n), rest);
    ParseDecimal(n);
  }

  /** A line with nothing but blanks after `osd.` raises IndexError. */
  lemma OsdIdOfBlank(rest: string)
    requires forall k :: 0 <= k < |rest| ==> IsSpace(rest[k])
    ensures OsdId("osd." + rest) == Err(IndexError)
  {
    assert ("osd." + rest)[4..] == rest;
  }
}

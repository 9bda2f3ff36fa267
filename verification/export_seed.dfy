/**
 * scripts/exportSeed.js: the command-line options, the choice of events (all,
 * or only seeds), their order by start time, the portable record each one
 * becomes, and where the file is written without clobbering an existing one.
 *
 * The database is read as it is (`events`, `users`); the order in which the
 * collection returns documents, the working directory, whether a file exists,
 * and the clock are inputs. The write itself is the returned target path and
 * records.
 */
module ExportSeed {
  import opened Common
  import opened Text
  import opened Lists
  import opened EventModel
  import opened UserModel
  import opened CronReset

  // ---------------------------------------------------------------------------
  // Command-line options
  // ---------------------------------------------------------------------------

  /** `path.join('seed', 'defaultEvents.json')` */
  const DefaultOutFile := "seed/defaultEvents.json"

  /** `--seed-only`, the argument after `--out` (missing when `--out` is last), and `--force`. */
  datatype Options = Options(seedOnly: bool, outFile: Option<string>, force: bool)

  /** `args.indexOf(x)`: the first position of `x`, or -1. */
  function IndexOf(args: seq<string>, x: string): (i: int)
    ensures -1 <= i < |args|
    ensures i == -1 <==> x !in args
    ensures i >= 0 ==> args[i] == x && forall j :: 0 <= j < i ==> args[j] != x
  {
    if args == [] then -1
    else if args[0] == x then 0
    else
      var k := IndexOf(args[1..], x);
      if k == -1 then -1 else k + 1
  }

  function ParseArgs(args: seq<string>): (o: Options)
    ensures o.seedOnly <==> "--seed-only" in args
    ensures o.force <==> "--force" in args
    ensures "--out" !in args ==> o.outFile == Some(DefaultOutFile)
    ensures "--out" in args ==> var i := IndexOf(args, "--out");
                                o.outFile == (if i + 1 < |args| then Some(args[i + 1]) else None)
  {
    var k := IndexOf(args, "--out");
    var outFile := if k > -1 then (if k + 1 < |args| then Some(args[k + 1]) else None) else Some(DefaultOutFile);
    Options("--seed-only" in args, outFile, "--force" in args)
  }

  /** The usages the script documents. */
  lemma ParseArgsExamples()
    ensures ParseArgs([]) == Options(false, Some(DefaultOutFile), false)
    ensures ParseArgs(["--seed-only"]) == Options(true, Some(DefaultOutFile), false)
    ensures ParseArgs(["--out", DefaultOutFile, "--force"]) == Options(false, Some(DefaultOutFile), true)
    ensures ParseArgs(["--out"]).outFile.None?
  {
    assert ["--out", DefaultOutFile, "--force"][1] == DefaultOutFile;
  }

  // ---------------------------------------------------------------------------
  // Selection and order
  // ---------------------------------------------------------------------------

  /** The query's filter: every event, or only the seeds. */
  predicate Matches(e: Event, seedOnly: bool)
  {
    !seedOnly || e.isSeed
  }

  /**
   * The positions from `from` on, in the order the collection returns the
   * documents, of the documents the query matches: each matching position
   * once, ascending.
   */
  function MatchingPositions(events: map<EventId, Event>, order: seq<EventId>, seedOnly: bool, from: nat)
    : (p: seq<nat>)
    requires from <= |order| && forall i :: 0 <= i < |order| ==> order[i] in events
    ensures forall j :: 0 <= j < |p| ==> from <= p[j] < |order| && Matches(events[order[p[j]]], seedOnly)
    ensures forall j, k :: 0 <= j < k < |p| ==> p[j] < p[k]
    ensures forall i :: from <= i < |order| && Matches(events[order[i]], seedOnly) ==> i in p
    decreases |order| - from
  {
    if from == |order| then []
    else
      var rest := MatchingPositions(events, order, seedOnly, from + 1);
      if Matches(events[order[from]], seedOnly) then [from] + rest else rest
  }

  /**
   * `Event.find(seedOnly ? { isSeed: true } : {})` over the documents from
   * position `from` on, in the order the collection returns them: the document
   * at each matching position, in turn.
   */
  function Selected(events: map<EventId, Event>, order: seq<EventId>, seedOnly: bool, from: nat): (r: seq<Event>)
    requires from <= |order| && forall i :: 0 <= i < |order| ==> order[i] in events
    ensures var p := MatchingPositions(events, order, seedOnly, from);
            |r| == |p| && forall j :: 0 <= j < |r| ==> r[j] == events[order[p[j]]]
    decreases |order| - from
  {
    if from == |order| then []
    else
      var rest := Selected(events, order, seedOnly, from + 1);
      var p := MatchingPositions(events, order, seedOnly, from + 1);
      var e := events[order[from]];
      if Matches(e, seedOnly) then
        var q := [from] + p;
        assert MatchingPositions(events, order, seedOnly, from) == q;
        assert forall j :: 0 <= j < |q| ==> ([e] + rest)[j] == events[order[q[j]]] by {
          forall j | 0 <= j < |q| ensures ([e] + rest)[j] == events[order[q[j]]] {
            if j > 0 {
              assert ([e] + rest)[j] == rest[j - 1] && q[j] == p[j - 1];
            }
          }
        }
        [e] + rest
      else
        assert MatchingPositions(events, order, seedOnly, from) == p;
        rest
  }

  /** Every document the query matches is selected, and nothing else is. */
  lemma SelectedExactly(events: map<EventId, Event>, order: seq<EventId>, seedOnly: bool)
    requires forall i :: 0 <= i < |order| ==> order[i] in events
    ensures forall e :: e in Selected(events, order, seedOnly, 0) ==> Matches(e, seedOnly)
    ensures forall i :: 0 <= i < |order| && Matches(events[order[i]], seedOnly) ==>
              events[order[i]] in Selected(events, order, seedOnly, 0)
  {
    var r := Selected(events, order, seedOnly, 0);
    var p := MatchingPositions(events, order, seedOnly, 0);
    forall e | e in r ensures Matches(e, seedOnly) {
      var j :| 0 <= j < |r| && r[j] == e;
    }
    forall i | 0 <= i < |order| && Matches(events[order[i]], seedOnly) ensures events[order[i]] in r {
      var j :| 0 <= j < |p| && p[j] == i;
      assert r[j] == events[order[i]];
    }
  }

  /** The collection's order lists every stored document exactly once. */
  predicate ListsEachOnce(events: map<EventId, Event>, order: seq<EventId>)
  {
    && NoDuplicates(order)
    && (forall i :: 0 <= i < |order| ==> order[i] in events)
    && (forall k :: k in events ==> k in order)
  }

  /** The ids of the documents at the matching positions, in order. */
  function MatchedIds(events: map<EventId, Event>, order: seq<EventId>, seedOnly: bool): (ids: seq<EventId>)
    requires forall i :: 0 <= i < |order| ==> order[i] in events
    ensures var p := MatchingPositions(events, order, seedOnly, 0);
            |ids| == |p| && forall j :: 0 <= j < |ids| ==> ids[j] == order[p[j]]
  {
    var p := MatchingPositions(events, order, seedOnly, 0);
    seq(|p|, j requires 0 <= j < |p| => order[p[j]])
  }

  /**
   * When the collection lists each document once, every matching document is
   * at exactly one matching position, so the query returns it exactly once.
   */
  lemma MatchedOnce(events: map<EventId, Event>, order: seq<EventId>, seedOnly: bool)
    requires ListsEachOnce(events, order)
    ensures forall k :: k in events && Matches(events[k], seedOnly) ==> k in MatchedIds(events, order, seedOnly)
    ensures NoDuplicates(MatchedIds(events, order, seedOnly))
  {
    var p := MatchingPositions(events, order, seedOnly, 0);
    var ids := MatchedIds(events, order, seedOnly);
    forall k | k in events && Matches(events[k], seedOnly) ensures k in ids {
      var i :| 0 <= i < |order| && order[i] == k;
      assert i in p;
      var j :| 0 <= j < |p| && p[j] == i;
      assert ids[j] == k;
    }
    forall j1, j2 | 0 <= j1 < j2 < |ids| ensures ids[j1] != ids[j2] {
      assert p[j1] < p[j2] < |order|;
    }
  }

  /** Ascending `startDateTime`. */
  predicate SortedByStart(s: seq<Event>)
  {
    forall i, j :: 0 <= i < j < |s| ==> s[i].start <= s[j].start
  }

  /** An event that starts no later than every event of a sorted sequence may go in front of it. */
  lemma ConsSorted(x: Event, t: seq<Event>)
    requires SortedByStart(t)
    requires forall k :: 0 <= k < |t| ==> x.start <= t[k].start
    ensures SortedByStart([x] + t)
  {
    var r := [x] + t;
    forall i, j | 0 <= i < j < |r| ensures r[i].start <= r[j].start {
      if i > 0 {
        assert r[i] == t[i - 1] && r[j] == t[j - 1];
      } else {
        assert r[j] == t[j - 1];
      }
    }
  }

  /** `e` placed in front of the first later-starting event of a sorted sequence. */
  function InsertByStart(e: Event, s: seq<Event>): (r: seq<Event>)
    requires SortedByStart(s)
    ensures SortedByStart(r)
    ensures multiset(r) == multiset(s) + multiset{e}
  {
    if s == [] then [e]
    else if e.start <= s[0].start then
      ConsSorted(e, s);
      [e] + s
    else
      var rest := InsertByStart(e, s[1..]);
      assert s == [s[0]] + s[1..];
      assert forall k :: 0 <= k < |rest| ==> s[0].start <= rest[k].start by {
        forall k | 0 <= k < |rest| ensures s[0].start <= rest[k].start {
          assert rest[k] in multiset(rest);
          if rest[k] != e {
            var m :| 0 <= m < |s[1..]| && s[1..][m] == rest[k];
            assert s[m + 1] == rest[k];
          }
        }
      }
      ConsSorted(s[0], rest);
      [s[0]] + rest
  }

  /** `.sort({ startDateTime: 1 })`: the same documents, by ascending start. */
  function SortByStart(s: seq<Event>): (r: seq<Event>)
    ensures SortedByStart(r)
    ensures multiset(r) == multiset(s)
  {
    if s == [] then []
    else
      assert s == [s[0]] + s[1..];
      InsertByStart(s[0], SortByStart(s[1..]))
  }

  // ---------------------------------------------------------------------------
  // The portable record
  // ---------------------------------------------------------------------------

  /** One entry of the exported file; the dates are kept as instants rather than ISO text. */
  datatype SeedRecord = SeedRecord(
    title: string,
    category: string,
    location: string,
    details: string,
    startDateTime: Option<Instant>,
    endDateTime: Option<Instant>,
    image: Option<string>,
    hostEmail: Option<string>,
    hostName: Option<string>)

  /** `e.image || null` */
  function PortableImage(image: Option<string>): (r: Option<string>)
    ensures r.Some? <==> image.Some? && image.value != ""
    ensures r.Some? ==> r == image
  {
    if image.Some? && image.value != "" then image else None
  }

  /**
   * `docs.map(e => ({...}))` with `host` populated from `users`. A stored event
   * always has both dates, and a `Date` is truthy, so neither date is ever null.
   */
  function ToRecord(e: Event, users: map<UserId, User>): (r: SeedRecord)
    ensures r.startDateTime == Some(e.start) && r.endDateTime == Some(e.end)
    ensures r.category == CategoryName(e.category)
    ensures r.hostEmail.Some? <==> e.host in users && users[e.host].email != ""
    ensures r.hostEmail.Some? ==> r.hostEmail.value == users[e.host].email
    ensures r.hostName.Some? <==> e.host in users
    ensures r.hostName.Some? ==>
              && r.hostName.value == Trim(users[e.host].firstName + " " + users[e.host].lastName)
              && IsTrimmed(r.hostName.value)
    ensures r.title == e.title && r.location == e.location && r.details == e.details
    ensures r.image == PortableImage(e.image)
  {
    var host := if e.host in users then Some(users[e.host]) else None;
    TrimIsTrimmed(if host.Some? then host.value.firstName + " " + host.value.lastName else "");
    SeedRecord(
      e.title, CategoryName(e.category), e.location, e.details,
      Some(e.start), Some(e.end),
      PortableImage(e.image),
      if host.Some? && host.value.email != "" then Some(host.value.email) else None,
      if host.Some? then Some(Trim(host.value.firstName + " " + host.value.lastName)) else None)
  }

  /** The records written: the selected events, by ascending start, each mapped to its record. */
  function ExportData(events: map<EventId, Event>, order: seq<EventId>, users: map<UserId, User>, seedOnly: bool)
    : (r: seq<SeedRecord>)
    requires forall i :: 0 <= i < |order| ==> order[i] in events
    ensures var docs := SortByStart(Selected(events, order, seedOnly, 0));
            |r| == |docs| && forall i :: 0 <= i < |r| ==> r[i] == ToRecord(docs[i], users)
  {
    Records(SortByStart(Selected(events, order, seedOnly, 0)), users)
  }

  /** `docs.map(e => ({...}))` */
  function Records(docs: seq<Event>, users: map<UserId, User>): (r: seq<SeedRecord>)
    ensures |r| == |docs| && forall i :: 0 <= i < |r| ==> r[i] == ToRecord(docs[i], users)
  {
    seq(|docs|, i requires 0 <= i < |docs| => ToRecord(docs[i], users))
  }

  /**
   * The exported records come out by ascending start, one record for each
   * document the query matches: the documents behind them are the selected
   * ones, each as often as it was selected, and every matching event is among
   * them.
   */
  lemma ExportedInOrder(events: map<EventId, Event>, order: seq<EventId>, users: map<UserId, User>, seedOnly: bool)
    requires forall i :: 0 <= i < |order| ==> order[i] in events
    ensures var r := ExportData(events, order, users, seedOnly);
            forall i, j :: 0 <= i < j < |r| ==> r[i].startDateTime.value <= r[j].startDateTime.value
    ensures |ExportData(events, order, users, seedOnly)| == |MatchingPositions(events, order, seedOnly, 0)|
    ensures multiset(SortByStart(Selected(events, order, seedOnly, 0))) == multiset(Selected(events, order, seedOnly, 0))
    ensures var docs := SortByStart(Selected(events, order, seedOnly, 0));
            forall k :: k in events && (k in order) && Matches(events[k], seedOnly) ==> events[k] in docs
    ensures forall e :: e in SortByStart(Selected(events, order, seedOnly, 0)) ==> Matches(e, seedOnly)
  {
    var sel := Selected(events, order, seedOnly, 0);
    var docs := SortByStart(sel);
    SelectedExactly(events, order, seedOnly);
    forall k | k in events && k in order && Matches(events[k], seedOnly) ensures events[k] in docs {
      var i :| 0 <= i < |order| && order[i] == k;
      assert events[k] in multiset(sel);
    }
    forall e | e in docs ensures Matches(e, seedOnly) {
      assert e in multiset(docs);
    }
  }

  /** What `loadDefaults()` makes of a record when the reset reads the file back. */
  function Import(r: SeedRecord): (t: Template)
    ensures t.title == r.title && t.category == r.category && t.location == r.location && t.details == r.details
    ensures t.start == r.startDateTime && t.end == r.endDateTime && t.image == r.image
  {
    Template(r.title, r.category, r.startDateTime, r.endDateTime, r.location, r.details, r.image)
  }

  /** The host fields of a record play no part in what the reset reads back; the reset's own host replaces them. */
  lemma ImportIgnoresHostFields(r: SeedRecord, hostEmail: Option<string>, hostName: Option<string>)
    ensures Import(r.(hostEmail := hostEmail, hostName := hostName)) == Import(r)
  {
  }

  /**
   * An exported event read back by the reset validates again, as a seed of the
   * configured host, with the same title, category, dates, texts and image (an
   * empty image string becomes none).
   */
  lemma ExportImportRoundTrip(e: Event, users: map<UserId, User>, host: UserId, now: Instant, ext: Externals)
    requires IsTrimmed(e.title) && IsTrimmed(e.location) && IsTrimmed(e.details)
    requires e.title != "" && e.location != "" && e.details != ""
    requires host != "" && ext.isValidObjectId(host)
    ensures EventModel.Validate(Tag(Import(ToRecord(e, users)), host), now, ext)
            == Some(e.(image := PortableImage(e.image), host := host, isSeed := true))
  {
    var d := Tag(Import(ToRecord(e, users)), host);
    TrimOfTrimmed(e.title);
    TrimOfTrimmed(e.location);
    TrimOfTrimmed(e.details);
    CategoryRoundTrip(e.category);
    ValidateAccepts(d, now, ext);
  }

  // ---------------------------------------------------------------------------
  // Where the file goes
  // ---------------------------------------------------------------------------

  /** `path.isAbsolute(outFile) ? outFile : path.join(process.cwd(), outFile)`, without normalization. */
  function ResolveOut(outFile: string, cwd: string): (p: string)
    ensures |outFile| > 0 && outFile[0] == '/' ==> p == outFile
    ensures !(|outFile| > 0 && outFile[0] == '/') ==> p == cwd + "/" + outFile
  {
    if |outFile| > 0 && outFile[0] == '/' then outFile else cwd + "/" + outFile
  }

  /** The decimal digit for `d`. */
  function DigitChar(d: nat): (c: char)
    requires d < 10
    ensures '0' <= c <= '9' && c as int - '0' as int == d
  {
    ('0' as int + d) as char
  }

  predicate AllDigits(s: string)
  {
    forall i :: 0 <= i < |s| ==> '0' <= s[i] <= '9'
  }

  /** The number a string of decimal digits denotes. */
  function DecimalValue(s: string): nat
    requires AllDigits(s)
  {
    if s == [] then 0 else 10 * DecimalValue(s[..|s| - 1]) + (s[|s| - 1] as int - '0' as int)
  }

  /** `${Date.now()}`: the decimal digits of the clock, without leading zeros. */
  function DecimalText(n: nat): (s: string)
    ensures |s| >= 1 && AllDigits(s)
    ensures DecimalValue(s) == n
    ensures s[0] == '0' ==> s == "0"
  {
    if n < 10 then [DigitChar(n)]
    else
      var t := DecimalText(n / 10);
      var s := t + [DigitChar(n % 10)];
      assert s[..|s| - 1] == t;
      s
  }

  /** The path ends in `.json`, in any case (`/\.json$/i`). */
  predicate EndsWithJson(p: string)
  {
    |p| >= 5 && Lower(p[|p| - 5..]) == ".json"
  }

  /** `outPath.replace(/\.json$/i, `.${Date.now()}.json`)`: unchanged when the pattern does not match. */
  function StampedAsWritten(p: string, stamp: nat): (r: string)
    ensures !EndsWithJson(p) ==> r == p
    ensures EndsWithJson(p) ==> r == p[..|p| - 5] + "." + DecimalText(stamp) + ".json" && |r| > |p|
  {
    if EndsWithJson(p) then p[..|p| - 5] + "." + DecimalText(stamp) + ".json" else p
  }

  /** The stamped name with the time inserted before `.json`, or appended when there is no such extension. */
  function StampedPath(p: string, stamp: nat): (r: string)
    ensures r != p
    ensures EndsWithJson(p) ==> r == StampedAsWritten(p, stamp)
    ensures |r| > |p|
  {
    if EndsWithJson(p) then StampedAsWritten(p, stamp) else p + "." + DecimalText(stamp) + ".json"
  }

  /** The script's choice as written, `existsSync(outPath) && !FORCE ? stamped : outPath`: the path actually written to. */
  function WriteTargetAsWritten(outPath: string, fileExists: bool, force: bool, stamp: nat): (target: string)
    ensures !(fileExists && !force) ==> target == outPath
    ensures fileExists && !force && EndsWithJson(outPath) ==> target != outPath
    ensures fileExists && !force && !EndsWithJson(outPath) ==> target == outPath
  {
    if fileExists && !force then StampedAsWritten(outPath, stamp) else outPath
  }

  /**
   * As written, an existing output file whose name does not end in `.json` is
   * overwritten without `--force`, where the corrected target never is.
   */
  lemma AsWrittenOverwritesExisting(outPath: string, stamp: nat)
    requires !EndsWithJson(outPath)
    ensures WriteTargetAsWritten(outPath, true, false, stamp) == outPath
    ensures WriteTarget(outPath, true, false, stamp) != outPath
  {
  }

  /** One such path: `--out /app/seed/events.txt`. */
  lemma OverwriteExample()
    ensures !EndsWithJson("/app/seed/events.txt")
    ensures WriteTargetAsWritten("/app/seed/events.txt", true, false, 1700000000000) == "/app/seed/events.txt"
  {
    assert "/app/seed/events.txt"[15..] == "s.txt";
    assert Lower("s.txt")[0] == 's';
  }

  /** The write target: an existing file is never overwritten unless `--force` is given. */
  function WriteTarget(outPath: string, fileExists: bool, force: bool, stamp: nat): (target: string)
    ensures fileExists && !force ==> target != outPath
    ensures !(fileExists && !force) ==> target == outPath
    ensures EndsWithJson(outPath) ==> target == WriteTargetAsWritten(outPath, fileExists, force, stamp)
  {
    if fileExists && !force then StampedPath(outPath, stamp) else outPath
  }

  /**
   * The whole script as written, on a reachable database: `None` when `--out`
   * is the last argument (`path.isAbsolute(undefined)` throws), otherwise the
   * path written and the records written there. An existing file is kept only
   * when its name ends in `.json`.
   */
  function RunExport(args: seq<string>, cwd: string, events: map<EventId, Event>, order: seq<EventId>,
                     users: map<UserId, User>, fileExists: string -> bool, stamp: nat)
    : (r: Option<(string, seq<SeedRecord>)>)
    requires forall i :: 0 <= i < |order| ==> order[i] in events
    ensures r.Some? <==> ParseArgs(args).outFile.Some?
    ensures r.Some? ==> r.value.1 == ExportData(events, order, users, "--seed-only" in args)
    ensures r.Some? ==>
              var outPath := ResolveOut(ParseArgs(args).outFile.value, cwd);
              && (fileExists(outPath) && "--force" !in args && EndsWithJson(outPath) ==> r.value.0 != outPath)
              && (fileExists(outPath) && "--force" !in args && !EndsWithJson(outPath) ==> r.value.0 == outPath)
              && (!fileExists(outPath) || "--force" in args ==> r.value.0 == outPath)
  {
    var o := ParseArgs(args);
    var data := ExportData(events, order, users, o.seedOnly);
    match o.outFile
    case None => None
    case Some(outFile) =>
      var outPath := ResolveOut(outFile, cwd);
      Some((WriteTargetAsWritten(outPath, fileExists(outPath), o.force, stamp), data))
  }

  /**
   * The script with the corrected write target: the same outcome and records,
   * and an existing file is never overwritten unless `--force` is given.
   */
  function RunExportCorrected(args: seq<string>, cwd: string, events: map<EventId, Event>, order: seq<EventId>,
                              users: map<UserId, User>, fileExists: string -> bool, stamp: nat)
    : (r: Option<(string, seq<SeedRecord>)>)
    requires forall i :: 0 <= i < |order| ==> order[i] in events
    ensures r.Some? <==> ParseArgs(args).outFile.Some?
    ensures r.Some? ==> r.value.1 == ExportData(events, order, users, "--seed-only" in args)
    ensures r.Some? ==>
              var outPath := ResolveOut(ParseArgs(args).outFile.value, cwd);
              && (fileExists(outPath) && "--force" !in args ==> r.value.0 != outPath)
              && (!fileExists(outPath) || "--force" in args ==> r.value.0 == outPath)
    ensures r.Some? && EndsWithJson(ResolveOut(ParseArgs(args).outFile.value, cwd)) ==>
              r == RunExport(args, cwd, events, order, users, fileExists, stamp)
  {
    var o := ParseArgs(args);
    var data := ExportData(events, order, users, o.seedOnly);
    match o.outFile
    case None => None
    case Some(outFile) =>
      var outPath := ResolveOut(outFile, cwd);
      Some((WriteTarget(outPath, fileExists(outPath), o.force, stamp), data))
  }
}

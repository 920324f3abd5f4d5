/**
 * The Legilimens object (legilimens.py): it holds the collectible catalog and
 * the two bug flags, and `_read_save` fills in every record's `collected`
 * flag from the tables read out of the save file, then runs the butterfly
 * and conjuration heuristics. `run` afterwards keeps only the records that
 * are still missing.
 */
module Reconciliation {
  import opened Results
  import opened Container
  import opened Catalog
  import opened RowSets

  /** `self._bugs`: the two known save-corruption conditions. */
  datatype Bugs = Bugs(butterfly: bool, conjuration: bool)

  /** What `_read_save` reports (its message, without the file name). */
  datatype ReadOutcome =
    | SaveUnreadable                  // bad magic, no marker, or a database SQLite cannot open
    | DatabaseUnreadable              // every table query failed
    | Read(tableErrors: seq<Category>)  // success; the affected categories of the tables that failed

  /**
   * SQLite opening the extracted image and answering the sqlite_master sanity
   * query (Some), or failing with a DatabaseError before any table is read (None).
   */
  type Engine = seq<byte> -> Option<Database>

  /** The flag the catalog loop writes into one record. */
  function Mark(c: Collectible, sqlData: map<Table, set<string>>): Collectible {
    var t := TableOf(c.kind);
    c.(collected := Some(t in sqlData && c.key in sqlData[t]))
  }

  /** The catalog after the loop over `self._collectibles`. */
  function Marked(cs: seq<Collectible>, sqlData: map<Table, set<string>>): (r: seq<Collectible>)
    ensures |r| == |cs|
  {
    if cs == [] then [] else Marked(cs[..|cs| - 1], sqlData) + [Mark(cs[|cs| - 1], sqlData)]
  }

  /**
   * Marking keeps the catalog's length and order and every field but
   * `collected`, which becomes "the record's table was read and lists its key".
   */
  lemma {:induction false} MarkedEntries(cs: seq<Collectible>, sqlData: map<Table, set<string>>)
    ensures |Marked(cs, sqlData)| == |cs|
    ensures forall i :: 0 <= i < |cs| ==>
              var t := TableOf(cs[i].kind);
              Marked(cs, sqlData)[i] == cs[i].(collected := Some(t in sqlData && cs[i].key in sqlData[t]))
  {
    if cs != [] {
      MarkedEntries(cs[..|cs| - 1], sqlData);
    }
  }

  /** The chest types counted by the conjuration heuristic. */
  predicate IsConjurationChest(k: CollectibleType) {
    k == MiscConjChest || k == ArithmancyChest || k == DungeonChest || k == ButterflyChest || k == VivariumChest
  }

  predicate IsOpenedChest(c: Collectible) {
    IsCollected(c) && IsConjurationChest(c.kind)
  }

  /** `chests_opened`: the number of collected records of a conjuration chest type. */
  function ChestsOpened(cs: seq<Collectible>): nat {
    if cs == [] then 0
    else ChestsOpened(cs[..|cs| - 1]) + (if IsOpenedChest(cs[|cs| - 1]) then 1 else 0)
  }

  /** The count is the number of positions holding an opened chest. */
  lemma {:induction false} ChestsOpenedCount(cs: seq<Collectible>)
    ensures ChestsOpened(cs) == |set i | 0 <= i < |cs| && IsOpenedChest(cs[i])|
  {
    if cs != [] {
      var n := |cs| - 1;
      var init := cs[..n];
      ChestsOpenedCount(init);
      var before := set i | 0 <= i < |init| && IsOpenedChest(init[i]);
      var after := set i | 0 <= i < |cs| && IsOpenedChest(cs[i]);
      if IsOpenedChest(cs[n]) {
        assert after == before + {n};
      } else {
        assert after == before;
      }
    }
  }

  /** Some ButterflyChest with index 1 is not collected. */
  predicate FirstButterflyChestMissing(cs: seq<Collectible>) {
    exists i :: 0 <= i < |cs| && cs[i].kind == ButterflyChest && cs[i].index == 1 && !IsCollected(cs[i])
  }

  /** The butterfly-quest heuristic, on the marked catalog. */
  predicate ButterflyBug(sqlData: map<Table, set<string>>, cs: seq<Collectible>) {
    && EconomicExpiryDynamic in sqlData
    && PlayerStatsDynamic in sqlData
    && "COM_11" in sqlData[PlayerStatsDynamic]
    && FirstButterflyChestMissing(cs)
  }

  /** The conjuration heuristic, on the marked catalog. */
  predicate ConjurationBug(sqlData: map<Table, set<string>>, cs: seq<Collectible>) {
    && CollectionDynamic2 in sqlData
    && LootDropComponentDynamic in sqlData
    && EconomicExpiryDynamic in sqlData
    && MapLocationDataDynamic in sqlData
    && ChestsOpened(cs) > |sqlData[CollectionDynamic2]|
  }

  /** A flag is only ever raised, never cleared. */
  function UpdatedBugs(bugs: Bugs, sqlData: map<Table, set<string>>, cs: seq<Collectible>): Bugs {
    Bugs(bugs.butterfly || ButterflyBug(sqlData, cs), bugs.conjuration || ConjurationBug(sqlData, cs))
  }

  /** The object state and the report after one `_read_save`. */
  datatype SaveState = SaveState(outcome: ReadOutcome, catalog: seq<Collectible>, bugs: Bugs)

  /** `_read_save` as a function of the save bytes, the database engine and the prior state. */
  function ReadSaveSpec(save: seq<byte>, engine: Engine, catalog: seq<Collectible>, bugs: Bugs): SaveState {
    match Extract(save)
    case Failure(_) => SaveState(SaveUnreadable, catalog, bugs)
    case Success(image) =>
      match engine(image)
      case None => SaveState(SaveUnreadable, catalog, bugs)
      case Some(db) =>
        var sqlData := SqlData(db);
        if |sqlData| == 0 then SaveState(DatabaseUnreadable, catalog, bugs)
        else
          var marked := Marked(catalog, sqlData);
          SaveState(Read(TableErrors(db)), marked, UpdatedBugs(bugs, sqlData, marked))
  }

  /** `[c for c in self._collectibles if not c['collected']]`. */
  function Uncollected(cs: seq<Collectible>): (r: seq<Collectible>)
    ensures |r| <= |cs|
  {
    if cs == [] then []
    else
      var last := cs[|cs| - 1];
      Uncollected(cs[..|cs| - 1]) + (if IsCollected(last) then [] else [last])
  }

  /** The filter keeps exactly the records that are not collected. */
  lemma {:induction false} UncollectedMembers(cs: seq<Collectible>, c: Collectible)
    ensures c in Uncollected(cs) <==> c in cs && !IsCollected(c)
  {
    if cs != [] {
      var init := cs[..|cs| - 1];
      UncollectedMembers(init, c);
      assert cs == init + [cs[|cs| - 1]];
    }
  }

  /** The filter keeps the catalog order: it distributes over concatenation. */
  lemma {:induction false} UncollectedAppend(a: seq<Collectible>, b: seq<Collectible>)
    ensures Uncollected(a + b) == Uncollected(a) + Uncollected(b)
  {
    if b == [] {
      assert a + b == a;
    } else {
      var init := b[..|b| - 1];
      UncollectedAppend(a, init);
      assert (a + b)[..|a + b| - 1] == a + init;
    }
  }

  class Legilimens {
    var collectibles: seq<Collectible>
    var bugs: Bugs

    /** The catalog of collectibles.json, given as a sequence of records; no bug detected yet. */
    constructor (catalog: seq<Collectible>)
      ensures collectibles == catalog && bugs == Bugs(false, false)
    {
      collectibles := catalog;
      bugs := Bugs(false, false);
    }

    /** The loop that overwrites `collected` on each record in place. */
    method MarkCollected(sqlData: map<Table, set<string>>)
      modifies this`collectibles
      ensures collectibles == Marked(old(collectibles), sqlData)
    {
      ghost var catalog := collectibles;
      MarkedEntries(catalog, sqlData);
      var i := 0;
      while i < |collectibles|
        invariant |collectibles| == |catalog| && 0 <= i <= |catalog|
        invariant forall j :: 0 <= j < i ==> collectibles[j] == Mark(catalog[j], sqlData)
        invariant forall j :: i <= j < |catalog| ==> collectibles[j] == catalog[j]
      {
        var c := collectibles[i];
        var t := TableOf(c.kind);
        if t in sqlData {
          collectibles := collectibles[i := c.(collected := Some(c.key in sqlData[t]))];
        } else {
          collectibles := collectibles[i := c.(collected := Some(false))];
        }
        i := i + 1;
      }
    }

    /** The two heuristics, each setting its flag when its condition holds. */
    method CheckBugs(sqlData: map<Table, set<string>>)
      modifies this`bugs
      ensures bugs == UpdatedBugs(old(bugs), sqlData, collectibles)
    {
      if EconomicExpiryDynamic in sqlData && PlayerStatsDynamic in sqlData {
        if "COM_11" in sqlData[PlayerStatsDynamic] && FirstButterflyChestMissing(collectibles) {
          bugs := bugs.(butterfly := true);
        }
      }
      if && CollectionDynamic2 in sqlData && LootDropComponentDynamic in sqlData
         && EconomicExpiryDynamic in sqlData && MapLocationDataDynamic in sqlData
      {
        var chestsOpened := ChestsOpened(collectibles);
        if chestsOpened > |sqlData[CollectionDynamic2]| {
          bugs := bugs.(conjuration := true);
        }
      }
    }

    /** `_read_save`: extraction, the query loop, total-failure detection, marking, heuristics. */
    method ReadSave(save: seq<byte>, engine: Engine) returns (outcome: ReadOutcome)
      modifies this
      ensures SaveState(outcome, collectibles, bugs) == ReadSaveSpec(save, engine, old(collectibles), old(bugs))
    {
      var extracted := Extract(save);
      if extracted.Failure? {
        return SaveUnreadable;
      }
      var session := engine(extracted.value);
      if session.None? {
        return SaveUnreadable;
      }
      var sqlData, errors := ReadTables(session.value);
      if |sqlData| == 0 {
        return DatabaseUnreadable;
      }
      MarkCollected(sqlData);
      CheckBugs(sqlData);
      outcome := Read(errors);
    }

    /** The filter at the start of the report: only the missing records stay. */
    method KeepUncollected()
      requires forall i :: 0 <= i < |collectibles| ==> collectibles[i].collected.Some?
      modifies this`collectibles
      ensures collectibles == Uncollected(old(collectibles))
    {
      collectibles := Uncollected(collectibles);
    }

    /** `run` without the printing: read the save, and on success keep the missing records. */
    method Run(save: seq<byte>, engine: Engine) returns (outcome: ReadOutcome)
      modifies this
      ensures var s := ReadSaveSpec(save, engine, old(collectibles), old(bugs));
              && outcome == s.outcome
              && bugs == s.bugs
              && collectibles == if outcome.Read? then Uncollected(s.catalog) else s.catalog
    {
      outcome := ReadSave(save, engine);
      if outcome.Read? {
        ReadMarksEveryRecord(save, engine, old(collectibles), old(bugs));
        KeepUncollected();
      }
    }
  }

  // ---------------------------------------------------------------------------
  // Properties of _read_save

  /** Whether the database says the record was obtained: its table was read and lists its key. */
  predicate Obtained(db: Database, c: Collectible) {
    var t := TableOf(c.kind);
    db(t).Rows? && c.key in RowSet(t, db(t).firstColumn)
  }

  /** The save-file error covers exactly the extraction failures and an engine that cannot open the image; nothing changes. */
  lemma SaveUnreadableCases(save: seq<byte>, engine: Engine, catalog: seq<Collectible>, bugs: Bugs)
    ensures var s := ReadSaveSpec(save, engine, catalog, bugs);
            && (s.outcome == SaveUnreadable <==>
                  || !StartsWith(save, Magic)
                  || (forall j: nat :: !OccursAt(save, Marker, j))
                  || engine(Extract(save).value).None?)
            && (!s.outcome.Read? ==> s.catalog == catalog && s.bugs == bugs)
  {
  }

  /** When every table fails, the database error is reported and neither the catalog nor a flag changes. */
  lemma AllTablesFail(save: seq<byte>, engine: Engine, catalog: seq<Collectible>, bugs: Bugs)
    requires Extract(save).Success? && engine(Extract(save).value).Some?
    requires forall t :: engine(Extract(save).value).value(t).QueryFailed?
    ensures ReadSaveSpec(save, engine, catalog, bugs) == SaveState(DatabaseUnreadable, catalog, bugs)
  {
    TotalFailure(engine(Extract(save).value).value);
  }

  /** One table that answers is enough for a report. */
  lemma OneTableSuffices(save: seq<byte>, engine: Engine, catalog: seq<Collectible>, bugs: Bugs, t: Table)
    requires Extract(save).Success? && engine(Extract(save).value).Some?
    requires engine(Extract(save).value).value(t).Rows?
    ensures ReadSaveSpec(save, engine, catalog, bugs).outcome ==
              Read(TableErrors(engine(Extract(save).value).value))
  {
    SqlDataEntries(engine(Extract(save).value).value, t);
  }

  /** Marking with `sql_data` sets each record's flag to whether the database says it was obtained. */
  lemma MarkedObtained(db: Database, catalog: seq<Collectible>)
    ensures |Marked(catalog, SqlData(db))| == |catalog|
    ensures forall i :: 0 <= i < |catalog| ==>
              Marked(catalog, SqlData(db))[i] == catalog[i].(collected := Some(Obtained(db, catalog[i])))
  {
    var sqlData := SqlData(db);
    MarkedEntries(catalog, sqlData);
    forall i | 0 <= i < |catalog|
      ensures Mark(catalog[i], sqlData) == catalog[i].(collected := Some(Obtained(db, catalog[i])))
    {
      SqlDataEntries(db, TableOf(catalog[i].kind));
    }
  }

  /** The state after a read that found at least one table. */
  lemma ReadState(save: seq<byte>, engine: Engine, catalog: seq<Collectible>, bugs: Bugs)
    requires Extract(save).Success? && engine(Extract(save).value).Some?
    ensures var db := engine(Extract(save).value).value;
            var s := ReadSaveSpec(save, engine, catalog, bugs);
            var marked := Marked(catalog, SqlData(db));
            s.outcome.Read? ==> s == SaveState(Read(TableErrors(db)), marked, UpdatedBugs(bugs, SqlData(db), marked))
  {
  }

  /**
   * After a successful read every record is flagged: collected exactly when
   * its table was read and lists its key (so never when the table failed),
   * and nothing else about the catalog changes.
   */
  lemma CollectedFlags(save: seq<byte>, engine: Engine, catalog: seq<Collectible>, bugs: Bugs)
    requires Extract(save).Success? && engine(Extract(save).value).Some?
    ensures var db := engine(Extract(save).value).value;
            var s := ReadSaveSpec(save, engine, catalog, bugs);
            s.outcome.Read? ==>
              && |s.catalog| == |catalog|
              && forall i :: 0 <= i < |catalog| ==>
                   s.catalog[i] == catalog[i].(collected := Some(Obtained(db, catalog[i])))
  {
    ReadState(save, engine, catalog, bugs);
    MarkedObtained(engine(Extract(save).value).value, catalog);
  }

  /** A successful read leaves a flag on every record, which is what the filter in `run` relies on. */
  lemma ReadMarksEveryRecord(save: seq<byte>, engine: Engine, catalog: seq<Collectible>, bugs: Bugs)
    ensures var s := ReadSaveSpec(save, engine, catalog, bugs);
            s.outcome.Read? ==> forall i :: 0 <= i < |s.catalog| ==> s.catalog[i].collected.Some?
  {
    var s := ReadSaveSpec(save, engine, catalog, bugs);
    if s.outcome.Read? {
      CollectedFlags(save, engine, catalog, bugs);
    }
  }

  /** The bug flags are never reset, whatever the outcome. */
  lemma FlagsAreSticky(save: seq<byte>, engine: Engine, catalog: seq<Collectible>, bugs: Bugs)
    ensures var s := ReadSaveSpec(save, engine, catalog, bugs);
            (bugs.butterfly ==> s.bugs.butterfly) && (bugs.conjuration ==> s.bugs.conjuration)
  {
  }

  /**
   * The butterfly flag is raised exactly when EconomicExpiryDynamic and
   * PlayerStatsDynamic were read, COM_11 is a completed activity, and the
   * key of some ButterflyChest #1 is not among the EconomicExpiryDynamic rows.
   */
  lemma ButterflyFlag(save: seq<byte>, engine: Engine, catalog: seq<Collectible>, bugs: Bugs)
    requires Extract(save).Success? && engine(Extract(save).value).Some?
    ensures var db := engine(Extract(save).value).value;
            var s := ReadSaveSpec(save, engine, catalog, bugs);
            s.outcome.Read? ==>
              (s.bugs.butterfly <==>
                 || bugs.butterfly
                 || (&& db(EconomicExpiryDynamic).Rows?
                     && db(PlayerStatsDynamic).Rows?
                     && "COM_11" in db(PlayerStatsDynamic).firstColumn
                     && exists i :: 0 <= i < |catalog| && catalog[i].kind == ButterflyChest && catalog[i].index == 1
                                    && catalog[i].key !in FirstColumn(db(EconomicExpiryDynamic).firstColumn)))
  {
    ReadState(save, engine, catalog, bugs);
    ButterflyBugIff(engine(Extract(save).value).value, catalog);
  }

  /** The butterfly condition on the marked catalog, stated on the database and the catalog as loaded. */
  lemma ButterflyBugIff(db: Database, catalog: seq<Collectible>)
    ensures ButterflyBug(SqlData(db), Marked(catalog, SqlData(db))) <==>
              && db(EconomicExpiryDynamic).Rows?
              && db(PlayerStatsDynamic).Rows?
              && "COM_11" in db(PlayerStatsDynamic).firstColumn
              && exists i :: 0 <= i < |catalog| && catalog[i].kind == ButterflyChest && catalog[i].index == 1
                             && catalog[i].key !in FirstColumn(db(EconomicExpiryDynamic).firstColumn)
  {
    SqlDataEntries(db, EconomicExpiryDynamic);
    SqlDataEntries(db, PlayerStatsDynamic);
    if db(EconomicExpiryDynamic).Rows? {
      ButterflyChestMissing(catalog, SqlData(db));
    }
  }

  /** After marking, a ButterflyChest #1 is missing exactly when its key is not among the EconomicExpiryDynamic rows. */
  lemma ButterflyChestMissing(catalog: seq<Collectible>, sqlData: map<Table, set<string>>)
    requires EconomicExpiryDynamic in sqlData
    ensures FirstButterflyChestMissing(Marked(catalog, sqlData)) <==>
              exists i :: 0 <= i < |catalog| && catalog[i].kind == ButterflyChest && catalog[i].index == 1
                          && catalog[i].key !in sqlData[EconomicExpiryDynamic]
  {
    var marked := Marked(catalog, sqlData);
    var rows := sqlData[EconomicExpiryDynamic];
    MarkedEntries(catalog, sqlData);
    if FirstButterflyChestMissing(marked) {
      var i :| 0 <= i < |marked| && marked[i].kind == ButterflyChest && marked[i].index == 1 && !IsCollected(marked[i]);
      assert TableOf(catalog[i].kind) == EconomicExpiryDynamic;
      assert marked[i] == catalog[i].(collected := Some(catalog[i].key in rows));
      assert catalog[i].kind == ButterflyChest && catalog[i].index == 1 && catalog[i].key !in rows;
    }
    if exists i :: 0 <= i < |catalog| && catalog[i].kind == ButterflyChest && catalog[i].index == 1 && catalog[i].key !in rows {
      var i :| 0 <= i < |catalog| && catalog[i].kind == ButterflyChest && catalog[i].index == 1 && catalog[i].key !in rows;
      assert TableOf(catalog[i].kind) == EconomicExpiryDynamic;
      assert marked[i] == catalog[i].(collected := Some(catalog[i].key in rows));
      assert marked[i].kind == ButterflyChest && marked[i].index == 1 && !IsCollected(marked[i]);
    }
  }

  /**
   * The conjuration flag is raised exactly when the four tables were read and
   * more conjuration-type chests are obtained than the CollectionDynamic2
   * rows account for.
   */
  lemma ConjurationFlag(save: seq<byte>, engine: Engine, catalog: seq<Collectible>, bugs: Bugs)
    requires Extract(save).Success? && engine(Extract(save).value).Some?
    ensures var db := engine(Extract(save).value).value;
            var s := ReadSaveSpec(save, engine, catalog, bugs);
            s.outcome.Read? ==>
              (s.bugs.conjuration <==>
                 || bugs.conjuration
                 || (&& db(CollectionDynamic2).Rows?
                     && db(LootDropComponentDynamic).Rows?
                     && db(EconomicExpiryDynamic).Rows?
                     && db(MapLocationDataDynamic).Rows?
                     && |set i | 0 <= i < |catalog| && IsConjurationChest(catalog[i].kind) && Obtained(db, catalog[i])|
                          > |FirstColumn(db(CollectionDynamic2).firstColumn)|))
  {
    var db := engine(Extract(save).value).value;
    ReadState(save, engine, catalog, bugs);
    ObtainedChests(db, catalog);
    SqlDataEntries(db, CollectionDynamic2);
    SqlDataEntries(db, LootDropComponentDynamic);
    SqlDataEntries(db, EconomicExpiryDynamic);
    SqlDataEntries(db, MapLocationDataDynamic);
  }

  /** `chests_opened` on the marked catalog counts the conjuration-type records the database says were obtained. */
  lemma ObtainedChests(db: Database, catalog: seq<Collectible>)
    ensures ChestsOpened(Marked(catalog, SqlData(db))) ==
              |set i | 0 <= i < |catalog| && IsConjurationChest(catalog[i].kind) && Obtained(db, catalog[i])|
  {
    var marked := Marked(catalog, SqlData(db));
    MarkedObtained(db, catalog);
    ChestsOpenedCount(marked);
    var openedChests := set i | 0 <= i < |marked| && IsOpenedChest(marked[i]);
    var obtained := set i | 0 <= i < |catalog| && IsConjurationChest(catalog[i].kind) && Obtained(db, catalog[i]);
    forall i | 0 <= i < |catalog|
      ensures IsOpenedChest(marked[i]) <==> IsConjurationChest(catalog[i].kind) && Obtained(db, catalog[i])
    {
      assert marked[i].kind == catalog[i].kind;
      assert marked[i].collected == Some(Obtained(db, catalog[i]));
    }
    assert openedChests == obtained;
  }

  /** Reading the same save again changes nothing: the flags are a function of the catalog and the database. */
  lemma ReadSaveIdempotent(save: seq<byte>, engine: Engine, catalog: seq<Collectible>, bugs: Bugs)
    ensures var s := ReadSaveSpec(save, engine, catalog, bugs);
            var again := ReadSaveSpec(save, engine, s.catalog, s.bugs);
            again.catalog == s.catalog && again.bugs == s.bugs
  {
    var s := ReadSaveSpec(save, engine, catalog, bugs);
    if s.outcome.Read? {
      var sqlData := SqlData(engine(Extract(save).value).value);
      MarkedEntries(catalog, sqlData);
      MarkedEntries(s.catalog, sqlData);
      assert Marked(s.catalog, sqlData) == s.catalog;
    }
  }

  /** Two databases that agree on every table but `failed` give the same `sql_data` outside `failed`. */
  lemma SqlDataAgree(db1: Database, db2: Database, failed: Table, u: Table)
    requires forall t :: t != failed ==> db1(t) == db2(t)
    requires u != failed
    ensures u in SqlData(db1) <==> u in SqlData(db2)
    ensures u in SqlData(db1) ==> SqlData(db1)[u] == SqlData(db2)[u]
  {
    SqlDataEntries(db1, u);
    SqlDataEntries(db2, u);
  }

  /** Marking only looks at the tables the records are looked up in. */
  lemma MarkedAgree(catalog: seq<Collectible>, sql1: map<Table, set<string>>, sql2: map<Table, set<string>>, failed: Table)
    requires forall i :: 0 <= i < |catalog| ==> TableOf(catalog[i].kind) != failed
    requires forall u :: u != failed ==> (u in sql1 <==> u in sql2)
    requires forall u :: u != failed && u in sql1 ==> sql1[u] == sql2[u]
    ensures Marked(catalog, sql1) == Marked(catalog, sql2)
  {
    MarkedEntries(catalog, sql1);
    MarkedEntries(catalog, sql2);
  }

  /**
   * A failing table that no record is looked up in and no heuristic consults
   * does not change the catalog or the flags: only its categories in the error list differ.
   */
  lemma UnusedTableFailure(save: seq<byte>, engine1: Engine, engine2: Engine, catalog: seq<Collectible>, bugs: Bugs, failed: Table)
    requires Extract(save).Success?
    requires engine1(Extract(save).value).Some? && engine2(Extract(save).value).Some?
    requires failed == CollectionDynamic || failed == SphinxPuzzleDynamic || failed == MiscDataDynamic || failed == AchievementDynamic
    requires forall i :: 0 <= i < |catalog| ==> TableOf(catalog[i].kind) != failed
    requires forall t :: t != failed ==> engine1(Extract(save).value).value(t) == engine2(Extract(save).value).value(t)
    requires exists t :: t != failed && engine1(Extract(save).value).value(t).Rows?
    ensures var s1 := ReadSaveSpec(save, engine1, catalog, bugs);
            var s2 := ReadSaveSpec(save, engine2, catalog, bugs);
            s1.outcome.Read? && s2.outcome.Read? && s1.catalog == s2.catalog && s1.bugs == s2.bugs
  {
    var db1 := engine1(Extract(save).value).value;
    var db2 := engine2(Extract(save).value).value;
    var t :| t != failed && db1(t).Rows?;
    SqlDataEntries(db1, t);
    SqlDataEntries(db2, t);
    var sql1, sql2 := SqlData(db1), SqlData(db2);
    forall u | u != failed
      ensures (u in sql1 <==> u in sql2) && (u in sql1 ==> sql1[u] == sql2[u])
    {
      SqlDataAgree(db1, db2, failed, u);
    }
    MarkedAgree(catalog, sql1, sql2, failed);
    var marked := Marked(catalog, sql1);
    BugsAgree(bugs, sql1, sql2, marked, failed);
    assert ReadSaveSpec(save, engine1, catalog, bugs) == SaveState(Read(TableErrors(db1)), marked, UpdatedBugs(bugs, sql1, marked));
    assert ReadSaveSpec(save, engine2, catalog, bugs) == SaveState(Read(TableErrors(db2)), marked, UpdatedBugs(bugs, sql2, marked));
  }

  /** The heuristics only consult EconomicExpiryDynamic, PlayerStatsDynamic, CollectionDynamic2, LootDropComponentDynamic and MapLocationDataDynamic. */
  lemma BugsAgree(bugs: Bugs, sql1: map<Table, set<string>>, sql2: map<Table, set<string>>, cs: seq<Collectible>, failed: Table)
    requires failed == CollectionDynamic || failed == SphinxPuzzleDynamic || failed == MiscDataDynamic || failed == AchievementDynamic
    requires forall u :: u != failed ==> (u in sql1 <==> u in sql2)
    requires forall u :: u != failed && u in sql1 ==> sql1[u] == sql2[u]
    ensures UpdatedBugs(bugs, sql1, cs) == UpdatedBugs(bugs, sql2, cs)
  {
    assert EconomicExpiryDynamic != failed && PlayerStatsDynamic != failed;
    assert CollectionDynamic2 != failed && LootDropComponentDynamic != failed && MapLocationDataDynamic != failed;
  }

  /** With only the first table answering, every later table is reported, in query order. */
  lemma OnlyFirstTableErrors(db: Database)
    requires db(QueryOrder[0]).Rows?
    requires forall i :: 1 <= i < |QueryOrder| ==> db(QueryOrder[i]).QueryFailed?
    ensures TableErrors(db) == AffectedCategories(QueryOrder[1..])
  {
    var q := QueryOrder;
    assert q == [q[0]] + q[1..];
    TableErrorsOfAppend(db, [q[0]], q[1..]);
    assert [q[0]][..0] == [];
    TableErrorsOfFailed(db, q[1..]);
  }

  /**
   * End to end: a well-framed save whose database answers only the
   * CollectionDynamic query, with the single row `key`, marks exactly the
   * Revelio pages with that key, reports the categories of every other table (all
   * queried after it), and raises no flag.
   */
  lemma OnlyCollectionDynamicReadable(header: seq<byte>, metadata: seq<byte>, image: seq<byte>, trailer: seq<byte>,
                                      engine: Engine, catalog: seq<Collectible>, bugs: Bugs, key: string)
    requires StartsWith(header, Magic)
    requires forall j: nat :: !OccursAt(header, Marker, j)
    requires |metadata| == MetadataSize
    requires |image| < Pow256(LengthFieldSize)
    requires engine(image).Some?
    requires forall t :: engine(image).value(t) == if t == CollectionDynamic then Rows([key]) else QueryFailed
    ensures var s := ReadSaveSpec(Frame(header, metadata, image, trailer), engine, catalog, bugs);
            && s.outcome == Read(AffectedCategories(QueryOrder[1..]))
            && s.bugs == bugs
            && |s.catalog| == |catalog|
            && forall i :: 0 <= i < |catalog| ==>
                 s.catalog[i] == catalog[i].(collected := Some(catalog[i].kind == Revelio && catalog[i].key == key))
  {
    var save := Frame(header, metadata, image, trailer);
    ExtractFrame(header, metadata, image, trailer);
    var db := engine(image).value;
    OnlyCollectionDynamicRows(db, catalog, bugs, key);
    var marked := Marked(catalog, SqlData(db));
    assert ReadSaveSpec(save, engine, catalog, bugs) == SaveState(Read(TableErrors(db)), marked, UpdatedBugs(bugs, SqlData(db), marked));
  }

  /** The database half of the end-to-end case: the rows found, the errors, the marks and the flags. */
  lemma OnlyCollectionDynamicRows(db: Database, catalog: seq<Collectible>, bugs: Bugs, key: string)
    requires forall t :: db(t) == if t == CollectionDynamic then Rows([key]) else QueryFailed
    ensures |SqlData(db)| != 0
    ensures TableErrors(db) == AffectedCategories(QueryOrder[1..])
    ensures UpdatedBugs(bugs, SqlData(db), Marked(catalog, SqlData(db))) == bugs
    ensures |Marked(catalog, SqlData(db))| == |catalog|
    ensures forall i :: 0 <= i < |catalog| ==>
              Marked(catalog, SqlData(db))[i] == catalog[i].(collected := Some(catalog[i].kind == Revelio && catalog[i].key == key))
  {
    SqlDataEntries(db, CollectionDynamic);
    OnlyFirstTableErrors(db);
    MarkedObtained(db, catalog);
    SqlDataEntries(db, EconomicExpiryDynamic);
    SqlDataEntries(db, CollectionDynamic2);
    forall i | 0 <= i < |catalog|
      ensures Obtained(db, catalog[i]) == (catalog[i].kind == Revelio && catalog[i].key == key)
    {
      ObtainedFromOneRow(db, key, catalog[i]);
    }
  }

  /** With CollectionDynamic holding the single row `key` and every other table failing, only that Revelio page is obtained. */
  lemma ObtainedFromOneRow(db: Database, key: string, c: Collectible)
    requires forall t :: db(t) == if t == CollectionDynamic then Rows([key]) else QueryFailed
    ensures Obtained(db, c) <==> c.kind == Revelio && c.key == key
  {
    assert FirstColumn([key]) == {key};
  }
}

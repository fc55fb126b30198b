/** What the records of xCAT-probe/scripts/dbstats.py say, in terms of the texts of the messages. */
module Accounting {
  import opened Text
  import opened Streams
  import opened XcatLogs
  import opened Analysis

  function Tallied(m: map<string, nat>, table: string): nat {
    if table in m then m[table] else 0
  }

  /** The elapsed time is a number behind which one character stands. */
  function Seconds(lib: Library, db: Message): Option<real> {
    match db.elapsed
    case None => Some(0.0)
    case Some(text) => lib.toFloat(if text == "" then "" else text[..|text| - 1])
  }

  predicate StartsWith(methodName: Option<string>, prefix: string) {
    methodName.Some? && prefix <= methodName.value
  }

  predicate TableMethod(methodName: Option<string>) {
    || StartsWith(methodName, "xCAT::Table::get") || StartsWith(methodName, "xCAT::Table::set")
    || StartsWith(methodName, "xCAT::Table::del")
  }

  /** The message has a type and, if that needs them, a method and a table, and no elapsed time that is not a number. */
  predicate CanCount(lib: Library, db: Message) {
    && Seconds(lib, db).Some? && db.kind.Some?
    && (db.kind.value == "end_sql" || db.kind.value == "end" || db.kind.value == "start_sql" ==> db.methodName.Some?)
    && (db.kind.value == "start_sql" && TableMethod(db.methodName) ==> db.table.Some?)
    && (db.kind.value == "build_cache" || db.kind.value == "cache_hit" ==> db.table.Some?)
  }

  function TimeOf(lib: Library, db: Message, kind: string, prefix: string): real {
    if CanCount(lib, db) && db.kind == Some(kind) && StartsWith(db.methodName, prefix) then Seconds(lib, db).value
    else 0.0
  }

  /** Total of the elapsed times of the traces of one type and method prefix. */
  function TotalTime(lib: Library, ts: seq<Trace>, kind: string, prefix: string): real {
    if ts == [] then 0.0 else TimeOf(lib, ts[0].db, kind, prefix) + TotalTime(lib, ts[1..], kind, prefix)
  }

  function TouchOf(lib: Library, db: Message, kind: string, prefix: string, table: string): nat {
    if CanCount(lib, db) && db.kind == Some(kind) && db.table == Some(table)
       && (prefix == "" || StartsWith(db.methodName, prefix)) then 1 else 0
  }

  /** How many traces of one type and method prefix, "" for any method, are about `table`. */
  function Touches(lib: Library, ts: seq<Trace>, kind: string, prefix: string, table: string): nat {
    if ts == [] then 0 else TouchOf(lib, ts[0].db, kind, prefix, table) + Touches(lib, ts[1..], kind, prefix, table)
  }

  lemma KindIsText(text: string)
    ensures KindOf(text) == EndSql <==> text == "end_sql"
    ensures KindOf(text) == EndSub <==> text == "end"
    ensures KindOf(text) == StartSql <==> text == "start_sql"
    ensures KindOf(text) == BuildCache <==> text == "build_cache"
    ensures KindOf(text) == CacheHit <==> text == "cache_hit"
  {
    assert |"end_sql"| == 7 && |"end"| == 3 && |"build_cache"| == 11;
    assert |"start_sql"| == |"cache_hit"| == 9 && "start_sql"[0] == 's' && "cache_hit"[0] == 'c';
  }

  /** The family of a method is its prefix: no name starts with two of the three. */
  lemma FamilyIsPrefix(methodName: string)
    ensures FamilyOf(methodName) == Get <==> "xCAT::Table::get" <= methodName
    ensures FamilyOf(methodName) == Set <==> "xCAT::Table::set" <= methodName
    ensures FamilyOf(methodName) == Del <==> "xCAT::Table::del" <= methodName
  {
    assert GET <= methodName ==> methodName[13] == GET[13] == 'g';
    assert SET <= methodName ==> methodName[13] == SET[13] == 's';
    assert DEL <= methodName ==> methodName[13] == DEL[13] == 'd';
  }

  /** What is taken from a message; a message that cannot be counted raises an exception. */
  lemma TallyIsText(lib: Library, db: Message)
    ensures var t := TallyOf(lib, db);
            && (t.Tally? <==> CanCount(lib, db))
            && (t.Refused? ==> t.error == if Seconds(lib, db) == None then ValueError else KeyError)
            && (t.Tally? ==>
                  && db.kind.Some? && t.kind == KindOf(db.kind.value) && Some(t.elapsed) == Seconds(lib, db)
                  && (UsesMethod(t.kind) ==> db.methodName.Some? && t.family == FamilyOf(db.methodName.value))
                  && (UsesTable(t.kind, t.family) ==> db.table == Some(t.table)))
  {
    if db.kind.Some? {
      KindIsText(db.kind.value);
      if db.methodName.Some? {
        FamilyIsPrefix(db.methodName.value);
      }
    }
  }

  // ----- times -----

  /** What a message of this kind and family adds to a time. */
  function Part(t: Tally, kind: Kind, family: Family): real {
    if t.Tally? && t.kind == kind && t.family == family then t.elapsed else 0.0
  }

  lemma TimesOfText(lib: Library, db: Message, kind: Kind, text: string)
    requires (kind == EndSql && text == "end_sql") || (kind == EndSub && text == "end")
    ensures var t := TallyOf(lib, db);
            && TimeOf(lib, db, text, "xCAT::Table::get") == Part(t, kind, Get)
            && TimeOf(lib, db, text, "xCAT::Table::set") == Part(t, kind, Set)
            && TimeOf(lib, db, text, "xCAT::Table::del") == Part(t, kind, Del)
  {
    TallyIsText(lib, db);
    if db.kind.Some? && db.methodName.Some? {
      KindIsText(db.kind.value);
      FamilyIsPrefix(db.methodName.value);
    }
  }

  lemma AddTimes(r: Row, kind: Kind, family: Family, table: string, elapsed: real)
    ensures var after := AddTo(r, kind, family, table, elapsed);
            && after.command == r.command && after.elapsed == r.elapsed
            && after.getSqlTime == r.getSqlTime + (if kind == EndSql && family == Get then elapsed else 0.0)
            && after.setSqlTime == r.setSqlTime + (if kind == EndSql && family == Set then elapsed else 0.0)
            && after.delSqlTime == r.delSqlTime + (if kind == EndSql && family == Del then elapsed else 0.0)
            && after.getSubTime == r.getSubTime + (if kind == EndSub && family == Get then elapsed else 0.0)
            && after.setSubTime == r.setSubTime + (if kind == EndSub && family == Set then elapsed else 0.0)
            && after.delSubTime == r.delSubTime + (if kind == EndSub && family == Del then elapsed else 0.0)
  {
  }

  /** Every time of a record is the sum over its traces of that type and method prefix. */
  lemma {:induction false} TimesAddUp(lib: Library, r: Row, ts: seq<Trace>)
    ensures var after := CountedAll(lib, r, ts);
            && after.command == r.command && after.elapsed == r.elapsed
            && after.getSqlTime == r.getSqlTime + TotalTime(lib, ts, "end_sql", "xCAT::Table::get")
            && after.setSqlTime == r.setSqlTime + TotalTime(lib, ts, "end_sql", "xCAT::Table::set")
            && after.delSqlTime == r.delSqlTime + TotalTime(lib, ts, "end_sql", "xCAT::Table::del")
            && after.getSubTime == r.getSubTime + TotalTime(lib, ts, "end", "xCAT::Table::get")
            && after.setSubTime == r.setSubTime + TotalTime(lib, ts, "end", "xCAT::Table::set")
            && after.delSubTime == r.delSubTime + TotalTime(lib, ts, "end", "xCAT::Table::del")
    decreases ts
  {
    if ts != [] {
      var t := TallyOf(lib, ts[0].db);
      TimesOfText(lib, ts[0].db, EndSql, "end_sql");
      TimesOfText(lib, ts[0].db, EndSub, "end");
      if t.Tally? {
        AddTimes(r, t.kind, t.family, t.table, t.elapsed);
      }
      TimesAddUp(lib, Add(r, t), ts[1..]);
    }
  }

  // ----- tables -----

  lemma AddTallies(r: Row, kind: Kind, family: Family, table: string, elapsed: real, t: string)
    ensures var after := AddTo(r, kind, family, table, elapsed);
            var one := if table == t then 1 else 0;
            && Tallied(after.getTables, t)
               == Tallied(r.getTables, t) + (if kind == StartSql && family == Get then one else 0)
            && Tallied(after.setTables, t)
               == Tallied(r.setTables, t) + (if kind == StartSql && family == Set then one else 0)
            && Tallied(after.delTables, t)
               == Tallied(r.delTables, t) + (if kind == StartSql && family == Del then one else 0)
            && Tallied(after.buildCache, t) == Tallied(r.buildCache, t) + (if kind == BuildCache then one else 0)
            && Tallied(after.cacheHit, t) == Tallied(r.cacheHit, t) + (if kind == CacheHit then one else 0)
  {
  }

  lemma TouchesOfText(lib: Library, db: Message, table: string)
    ensures var t := TallyOf(lib, db);
            var one := if t.Tally? && t.table == table then 1 else 0;
            && TouchOf(lib, db, "start_sql", "xCAT::Table::get", table)
               == (if t.Tally? && t.kind == StartSql && t.family == Get then one else 0)
            && TouchOf(lib, db, "start_sql", "xCAT::Table::set", table)
               == (if t.Tally? && t.kind == StartSql && t.family == Set then one else 0)
            && TouchOf(lib, db, "start_sql", "xCAT::Table::del", table)
               == (if t.Tally? && t.kind == StartSql && t.family == Del then one else 0)
            && TouchOf(lib, db, "build_cache", "", table) == (if t.Tally? && t.kind == BuildCache then one else 0)
            && TouchOf(lib, db, "cache_hit", "", table) == (if t.Tally? && t.kind == CacheHit then one else 0)
  {
    TallyIsText(lib, db);
    if db.kind.Some? {
      KindIsText(db.kind.value);
      if db.methodName.Some? {
        FamilyIsPrefix(db.methodName.value);
      }
    }
  }

  lemma AddTouches(lib: Library, r: Row, db: Message, table: string)
    ensures var after := Add(r, TallyOf(lib, db));
            && Tallied(after.getTables, table)
               == Tallied(r.getTables, table) + TouchOf(lib, db, "start_sql", "xCAT::Table::get", table)
            && Tallied(after.setTables, table)
               == Tallied(r.setTables, table) + TouchOf(lib, db, "start_sql", "xCAT::Table::set", table)
            && Tallied(after.delTables, table)
               == Tallied(r.delTables, table) + TouchOf(lib, db, "start_sql", "xCAT::Table::del", table)
            && Tallied(after.buildCache, table)
               == Tallied(r.buildCache, table) + TouchOf(lib, db, "build_cache", "", table)
            && Tallied(after.cacheHit, table)
               == Tallied(r.cacheHit, table) + TouchOf(lib, db, "cache_hit", "", table)
  {
    var t := TallyOf(lib, db);
    TouchesOfText(lib, db, table);
    if t.Tally? {
      AddTallies(r, t.kind, t.family, t.table, t.elapsed, table);
    }
  }

  /** Every table counter of a record is the number of its traces of that type, method prefix and table. */
  lemma {:induction false} TalliesAddUp(lib: Library, r: Row, ts: seq<Trace>, table: string)
    ensures var after := CountedAll(lib, r, ts);
            && Tallied(after.getTables, table)
               == Tallied(r.getTables, table) + Touches(lib, ts, "start_sql", "xCAT::Table::get", table)
            && Tallied(after.setTables, table)
               == Tallied(r.setTables, table) + Touches(lib, ts, "start_sql", "xCAT::Table::set", table)
            && Tallied(after.delTables, table)
               == Tallied(r.delTables, table) + Touches(lib, ts, "start_sql", "xCAT::Table::del", table)
            && Tallied(after.buildCache, table)
               == Tallied(r.buildCache, table) + Touches(lib, ts, "build_cache", "", table)
            && Tallied(after.cacheHit, table)
               == Tallied(r.cacheHit, table) + Touches(lib, ts, "cache_hit", "", table)
    decreases ts
  {
    if ts != [] {
      AddTouches(lib, r, ts[0].db, table);
      TalliesAddUp(lib, Add(r, TallyOf(lib, ts[0].db)), ts[1..], table);
    }
  }
}

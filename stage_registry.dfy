/** The lazily created stage table: _stage_map of backend/app/api/routes/requests.py
    as written (the routes call it), a corrected variant that indexes the stored names
    by their normalised key, and the shared fill routine that ensure_stage_map of the
    seeding script also follows. */
module StageRegistry {
  import opened Outcomes
  import opened Text
  import opened Stages
  import opened Records
  import opened Database

  // ---------------------------------------------------------------------------
  // The rows each creator inserts

  /** The row _stage_map creates for a missing stage: sequence 10, 20, then 30 for
      both repaired and scrap. */
  function ApiStageRow(s: Stage): (row: StageRow)
    ensures row.name == Label(s)
    ensures row.isScrap <==> s == Scrap
    ensures row.isClosed <==> s in {Repaired, Scrap}
    ensures row.sequence == (if s == New then 10 else if s == InProgress then 20 else 30)
  {
    StageRow(Label(s), if s == New then 10 else if s == InProgress then 20 else 30,
             s == Repaired || s == Scrap, s == Scrap)
  }

  /** The row ensure_stage_map creates: sequences 10, 20, 30 and 40. */
  function SeedStageRow(s: Stage): (row: StageRow)
    ensures row.name == Label(s)
    ensures row.isScrap <==> s == Scrap
    ensures row.isClosed <==> s in {Repaired, Scrap}
    ensures row.sequence == (match s case New => 10 case InProgress => 20 case Repaired => 30 case Scrap => 40)
  {
    match s
    case New => StageRow("New", 10, false, false)
    case InProgress => StageRow("In Progress", 20, false, false)
    case Repaired => StageRow("Repaired", 30, true, false)
    case Scrap => StageRow("Scrap", 40, true, true)
  }

  /** The two creators agree on every stage except the sequence of scrap. */
  lemma CreatorsAgree(s: Stage)
    ensures ApiStageRow(s) == SeedStageRow(s) <==> s != Scrap
    ensures ApiStageRow(s) == SeedStageRow(s).(sequence := ApiStageRow(s).sequence)
  {
  }

  // ---------------------------------------------------------------------------
  // Specification of a fill

  /** The stored names, each passed through the key function that indexes them. */
  function KeyNames(stages: map<Id, StageRow>, key: string -> string): set<string> {
    set id | id in stages :: key(stages[id].name)
  }

  function Names(stages: map<Id, StageRow>): set<string> {
    set id | id in stages :: stages[id].name
  }

  /** The missing list: the stages, in the order the stage vocabulary lists them, whose
      wanted key is absent from present. */
  function Missing(present: set<string>, want: Stage -> string): seq<Stage> {
    (if want(New) !in present then [New] else [])
    + (if want(InProgress) !in present then [InProgress] else [])
    + (if want(Repaired) !in present then [Repaired] else [])
    + (if want(Scrap) !in present then [Scrap] else [])
  }

  /** The position of a stage in the stage vocabulary. */
  function Order(s: Stage): int {
    match s case New => 0 case InProgress => 1 case Repaired => 2 case Scrap => 3
  }

  predicate Distinct(ss: seq<Stage>) {
    forall i, j :: 0 <= i < j < |ss| ==> ss[i] != ss[j]
  }

  /** The rows created for missing, with consecutive keys from `from` on. */
  function CreatedRows(missing: seq<Stage>, from: Id, row: Stage -> StageRow): map<Id, StageRow> {
    if missing == [] then map[]
    else CreatedRows(missing[..|missing| - 1], from, row)[from + |missing| - 1 := row(missing[|missing| - 1])]
  }

  /** The keys the fill adds to the returned dictionary. */
  function WantedKeys(missing: seq<Stage>, want: Stage -> string): set<string> {
    set s | s in missing :: want(s)
  }

  /** The dictionary entries the fill adds: each missing stage's wanted key mapped to the
      key of its created row. */
  function WantedMap(missing: seq<Stage>, from: Id, want: Stage -> string): map<string, Id> {
    if missing == [] then map[]
    else WantedMap(missing[..|missing| - 1], from, want)[want(missing[|missing| - 1]) := from + |missing| - 1]
  }

  /** A created row's label already names a stored row, so the flush violates the unique name. */
  predicate Collides(stages: map<Id, StageRow>, missing: seq<Stage>) {
    exists s :: s in missing && Label(s) in Names(stages)
  }

  /** byName indexes the rows with the given ids: every entry points at a row whose name
      the key function maps to the entry's key, and every row's key has an entry. */
  ghost predicate IndexedBy(byName: map<string, Id>, stages: map<Id, StageRow>, ids: set<Id>, key: string -> string) {
    && (forall k :: k in byName ==> byName[k] in ids && byName[k] in stages && key(stages[byName[k]].name) == k)
    && (forall id :: id in ids && id in stages ==> key(stages[id].name) in byName)
  }

  /** A stage is missing exactly when its wanted key is absent, and no stage is missing twice. */
  lemma MissingSpec(present: set<string>, want: Stage -> string)
    ensures forall s :: s in Missing(present, want) <==> want(s) !in present
    ensures Distinct(Missing(present, want))
    ensures |Missing(present, want)| <= 4
  {
    var m := Missing(present, want);
    forall s ensures s in m <==> want(s) !in present {
      match s
      case New =>
      case InProgress =>
      case Repaired =>
      case Scrap =>
    }
    forall i, j | 0 <= i < j < |m| ensures m[i] != m[j] {
      StageOrder(present, want, i, j);
    }
  }

  /** Each stage sits in the missing list after every stage listed before it. */
  lemma StageOrder(present: set<string>, want: Stage -> string, i: int, j: int)
    requires 0 <= i < j < |Missing(present, want)|
    ensures Order(Missing(present, want)[i]) < Order(Missing(present, want)[j])
  {
  }

  /** The created rows occupy exactly the keys from, ..., from + |missing| - 1, in order. */
  lemma {:induction false} CreatedRowsSpec(missing: seq<Stage>, from: Id, row: Stage -> StageRow)
    ensures forall k :: k in CreatedRows(missing, from, row) <==> from <= k < from + |missing|
    ensures forall j :: 0 <= j < |missing| ==> CreatedRows(missing, from, row)[from + j] == row(missing[j])
  {
    if missing != [] {
      var init := missing[..|missing| - 1];
      CreatedRowsSpec(init, from, row);
      forall j | 0 <= j < |missing| - 1 ensures missing[j] == init[j] { }
    }
  }

  /** The added entries: exactly the wanted keys, each pointing at its stage's created row. */
  lemma {:induction false} WantedMapSpec(missing: seq<Stage>, from: Id, want: Stage -> string)
    requires Distinct(missing)
    requires forall a, b :: want(a) == want(b) ==> a == b
    ensures forall k :: k in WantedMap(missing, from, want) <==> k in WantedKeys(missing, want)
    ensures forall j :: 0 <= j < |missing| ==> WantedMap(missing, from, want)[want(missing[j])] == from + j
  {
    if missing != [] {
      var init := missing[..|missing| - 1];
      var last := missing[|missing| - 1];
      assert missing == init + [last];
      assert Distinct(init) by {
        forall i, j | 0 <= i < j < |init| ensures init[i] != init[j] {
          assert init[i] == missing[i] && init[j] == missing[j];
        }
      }
      WantedMapSpec(init, from, want);
      forall j | 0 <= j < |missing| - 1
        ensures WantedMap(missing, from, want)[want(missing[j])] == from + j
      {
        assert missing[j] == init[j];
        assert missing[j] != last;
      }
    }
  }

  lemma UnionUpdate<K, V>(a: map<K, V>, b: map<K, V>, k: K, v: V)
    ensures (a + b)[k := v] == a + b[k := v]
  {
  }

  lemma WantedMapStep(missing: seq<Stage>, j: nat, from: Id, want: Stage -> string)
    requires j < |missing|
    ensures WantedMap(missing[..j + 1], from, want) == WantedMap(missing[..j], from, want)[want(missing[j]) := from + j]
  {
    assert missing[..j + 1][..j] == missing[..j];
  }

  lemma CreatedRowsStep(missing: seq<Stage>, j: nat, from: Id, row: Stage -> StageRow)
    requires j < |missing|
    ensures CreatedRows(missing[..j + 1], from, row) == CreatedRows(missing[..j], from, row)[from + j := row(missing[j])]
  {
    assert missing[..j + 1][..j] == missing[..j];
  }

  // ---------------------------------------------------------------------------
  // The fill routine

  /** by_name: each stored row under `key` of its name (a later row with the same key
      replaces an earlier one, in an order the query leaves unspecified). */
  method IndexStages(stages: map<Id, StageRow>, key: string -> string) returns (byName: map<string, Id>)
    ensures IndexedBy(byName, stages, stages.Keys, key)
    ensures byName.Keys == KeyNames(stages, key)
  {
    byName := map[];
    var rest := stages.Keys;
    while rest != {}
      invariant rest <= stages.Keys
      invariant IndexedBy(byName, stages, stages.Keys - rest, key)
      decreases rest
    {
      var id := Pick(rest);
      byName := byName[key(stages[id].name) := id];
      rest := rest - {id};
    }
    assert byName.Keys == KeyNames(stages, key) by {
      forall k | k in byName ensures k in KeyNames(stages, key) {
        var id := byName[k];
        assert id in stages && key(stages[id].name) == k;
      }
    }
  }

  /** The insert loop: each missing stage gets the next key and is flushed, which fails
      as soon as its name is already taken; on success every missing stage has been
      added to the table and to the dictionary. */
  method InsertMissing(stages: map<Id, StageRow>, from: Id, missing: seq<Stage>, byName0: map<string, Id>,
                       want: Stage -> string, row: Stage -> StageRow)
    returns (ok: bool, table: map<Id, StageRow>, next: Id, byName: map<string, Id>)
    requires KeysBelow(stages, from)
    requires Distinct(missing)
    requires forall s :: row(s).name == Label(s)
    ensures ok <==> !Collides(stages, missing)
    ensures ok ==> table == stages + CreatedRows(missing, from, row) && next == from + |missing|
    ensures ok ==> byName == byName0 + WantedMap(missing, from, want)
  {
    table, next, byName := stages, from, byName0;
    var j := 0;
    while j < |missing|
      invariant 0 <= j <= |missing|
      invariant table == stages + CreatedRows(missing[..j], from, row)
      invariant next == from + j
      invariant byName == byName0 + WantedMap(missing[..j], from, want)
      invariant forall t :: 0 <= t < j ==> Label(missing[t]) !in Names(stages)
    {
      var s := missing[j];
      FilledNames(stages, missing, j, from, row);
      if row(s).name in Names(table) {
        // the unique name on request_stage rejects the flush
        assert s in missing && Label(s) in Names(stages);
        ok := false;
        return;
      }
      CreatedRowsStep(missing, j, from, row);
      WantedMapStep(missing, j, from, want);
      UnionUpdate(stages, CreatedRows(missing[..j], from, row), next, row(s));
      UnionUpdate(byName0, WantedMap(missing[..j], from, want), want(s), next);
      table := table[next := row(s)];
      byName := byName[want(s) := next];
      next := next + 1;
      j := j + 1;
    }
    assert missing[..j] == missing;
    ok := true;
  }

  /** While inserting stage j, the table's names are the stored names and the labels of
      the stages inserted so far, none of which is the label of stage j. */
  lemma FilledNames(stages: map<Id, StageRow>, missing: seq<Stage>, j: nat, from: Id, row: Stage -> StageRow)
    requires KeysBelow(stages, from)
    requires Distinct(missing)
    requires j < |missing|
    requires forall s :: row(s).name == Label(s)
    ensures Label(missing[j]) in Names(stages + CreatedRows(missing[..j], from, row)) <==>
            Label(missing[j]) in Names(stages)
  {
    var done := missing[..j];
    var table := stages + CreatedRows(done, from, row);
    var name := Label(missing[j]);
    forall t | 0 <= t < j ensures row(done[t]).name != name {
      LabelsDiffer(done[t], missing[j]);
    }
    if name in Names(table) {
      var id :| id in table && table[id].name == name;
      RowOrigin(stages, done, from, row, id);
      assert id in stages && table[id] == stages[id];
    }
    if name in Names(stages) {
      var id :| id in stages && stages[id].name == name;
      RowOrigin(stages, done, from, row, id);
      assert id in table && table[id] == stages[id];
    }
  }

  lemma LabelsDiffer(a: Stage, b: Stage)
    requires a != b
    ensures Label(a) != Label(b)
  {
  }

  /** Reads every stage row into a dictionary keyed by `key` of its name, then adds one
      row for each stage whose `want` key the dictionary lacks, flushing each insert,
      and commits. A flush the unique stage name rejects aborts the whole call. */
  method FillStages(db: Db, key: string -> string, want: Stage -> string, row: Stage -> StageRow)
    returns (r: Result<map<string, Id>>)
    requires db.Valid()
    requires forall s :: row(s).name == Label(s)
    requires forall a, b :: want(a) == want(b) ==> a == b
    modifies db
    ensures db.Valid()
    ensures db.users == old(db.users) && db.departments == old(db.departments)
    ensures db.categories == old(db.categories) && db.teams == old(db.teams) && db.members == old(db.members)
    ensures db.equipment == old(db.equipment) && db.requests == old(db.requests)
    ensures var missing := Missing(KeyNames(old(db.stages), key), want);
      && (r.Err? <==> Collides(old(db.stages), missing))
      && (r.Err? ==> r.failure == IntegrityError && db.stages == old(db.stages) && db.nextId == old(db.nextId))
      && (r.Ok? ==>
            && db.stages == old(db.stages) + CreatedRows(missing, old(db.nextId), row)
            && db.nextId == old(db.nextId) + |missing|
            && IndexedBy(r.value - WantedKeys(missing, want), old(db.stages), old(db.stages).Keys, key)
            && (forall j :: 0 <= j < |missing| ==>
                  && want(missing[j]) in r.value
                  && r.value[want(missing[j])] == old(db.nextId) + j
                  && r.value[want(missing[j])] in db.stages
                  && db.stages[r.value[want(missing[j])]] == row(missing[j])))
  {
    var byName := IndexStages(db.stages, key);
    var missing := Missing(byName.Keys, want);
    MissingSpec(byName.Keys, want);
    var ok, table, next, byName' := InsertMissing(db.stages, db.nextId, missing, byName, want, row);
    if !ok {
      r := Err(IntegrityError);
      return;
    }
    forall t | 0 <= t < |missing| ensures Label(missing[t]) !in Names(db.stages) {
      assert missing[t] in missing;
    }
    CommitKeepsValid(db, table, next, missing, row);
    AddedEntries(db.stages, db.nextId, missing, byName, key, want, row);
    CommitStages(db, table, next);
    r := Ok(byName');
  }

  /** What the fill returns: the stored rows' entries, untouched, and one entry per
      created row. */
  lemma AddedEntries(stages: map<Id, StageRow>, from: Id, missing: seq<Stage>, byName0: map<string, Id>,
                     key: string -> string, want: Stage -> string, row: Stage -> StageRow)
    requires IndexedBy(byName0, stages, stages.Keys, key)
    requires forall s :: s in missing ==> want(s) !in byName0
    requires Distinct(missing)
    requires forall a, b :: want(a) == want(b) ==> a == b
    ensures var byName := byName0 + WantedMap(missing, from, want);
      var table := stages + CreatedRows(missing, from, row);
      && IndexedBy(byName - WantedKeys(missing, want), stages, stages.Keys, key)
      && (forall j :: 0 <= j < |missing| ==>
            && want(missing[j]) in byName
            && byName[want(missing[j])] == from + j
            && byName[want(missing[j])] in table
            && table[byName[want(missing[j])]] == row(missing[j]))
  {
    CreatedRowsSpec(missing, from, row);
    WantedMapSpec(missing, from, want);
    var byName := byName0 + WantedMap(missing, from, want);
    var rest := byName - WantedKeys(missing, want);
    forall k | k in rest ensures k in byName0 && rest[k] == byName0[k] { }
    forall id | id in stages ensures key(stages[id].name) in rest {
      var k := key(stages[id].name);
      assert k in byName0;
      assert k !in WantedKeys(missing, want);
    }
  }

  /** db.commit() of the inserted stage rows. */
  method CommitStages(db: Db, table: map<Id, StageRow>, next: Id)
    requires Consistent(db.users, db.departments, db.categories, db.teams, db.members, db.equipment,
                        table, db.requests, next)
    modifies db
    ensures db.Valid()
    ensures db.stages == table && db.nextId == next
    ensures db.users == old(db.users) && db.departments == old(db.departments)
    ensures db.categories == old(db.categories) && db.teams == old(db.teams) && db.members == old(db.members)
    ensures db.equipment == old(db.equipment) && db.requests == old(db.requests)
  {
    db.stages, db.nextId := table, next;
  }

  lemma CommitKeepsValid(db: Db, table: map<Id, StageRow>, next: Id, missing: seq<Stage>, row: Stage -> StageRow)
    requires db.Valid()
    requires forall s :: row(s).name == Label(s)
    requires Distinct(missing)
    requires table == db.stages + CreatedRows(missing, db.nextId, row)
    requires next == db.nextId + |missing|
    requires forall t :: 0 <= t < |missing| ==> Label(missing[t]) !in Names(db.stages)
    ensures Consistent(db.users, db.departments, db.categories, db.teams, db.members, db.equipment,
                       table, db.requests, next)
  {
    forall t, u | 0 <= t < |missing| && 0 <= u < |missing| && row(missing[t]).name == row(missing[u]).name
      ensures t == u
    {
      LabelInjective(missing[t], missing[u]);
    }
    FilledNamesUnique(db.stages, missing, db.nextId, row);
    CreatedKeys(db.stages, missing, db.nextId, row);
    StagesGrow(db.requests, db.equipment, db.categories, db.teams, db.users, db.stages, table);
  }

  /** Rows with fresh keys whose names are new and pairwise distinct keep stage names unique. */
  lemma FilledNamesUnique(stages: map<Id, StageRow>, missing: seq<Stage>, from: Id, row: Stage -> StageRow)
    requires UniqueStageNames(stages)
    requires KeysBelow(stages, from)
    requires forall t :: 0 <= t < |missing| ==> row(missing[t]).name !in Names(stages)
    requires forall t, u :: 0 <= t < |missing| && 0 <= u < |missing| && row(missing[t]).name == row(missing[u]).name ==> t == u
    ensures UniqueStageNames(stages + CreatedRows(missing, from, row))
  {
    var table := stages + CreatedRows(missing, from, row);
    forall a, b | a in table && b in table && table[a].name == table[b].name
      ensures a == b
    {
      RowOrigin(stages, missing, from, row, a);
      RowOrigin(stages, missing, from, row, b);
    }
  }

  /** Where a row of the filled table comes from: a created row carries the row of its
      stage, a stored one keeps a stored name. */
  lemma RowOrigin(stages: map<Id, StageRow>, missing: seq<Stage>, from: Id, row: Stage -> StageRow, k: Id)
    ensures var created := CreatedRows(missing, from, row);
      && (k in created ==> 0 <= k - from < |missing| && (stages + created)[k] == row(missing[k - from]))
      && (k in stages && k !in created ==> (stages + created)[k].name in Names(stages))
  {
    var created := CreatedRows(missing, from, row);
    CreatedRowsSpec(missing, from, row);
    if k in created {
      var j := k - from;
      assert created[from + j] == row(missing[j]);
    }
  }

  lemma CreatedKeys(stages: map<Id, StageRow>, missing: seq<Stage>, from: Id, row: Stage -> StageRow)
    requires KeysBelow(stages, from)
    requires 1 <= from
    ensures KeysBelow(stages + CreatedRows(missing, from, row), from + |missing|)
  {
    var table := stages + CreatedRows(missing, from, row);
    forall k | k in table ensures 1 <= k < from + |missing| {
      RowOrigin(stages, missing, from, row, k);
    }
  }

  /** Adding stage rows keeps every request's stage reference resolvable. */
  lemma StagesGrow(
    requests: map<Id, MaintenanceRequest>, equipment: map<Id, Equipment>, categories: map<Id, string>,
    teams: map<Id, string>, users: map<Id, AppUser>, stages: map<Id, StageRow>, larger: map<Id, StageRow>)
    requires RequestsResolve(requests, equipment, categories, teams, users, stages)
    requires stages.Keys <= larger.Keys
    ensures RequestsResolve(requests, equipment, categories, teams, users, larger)
  {
  }

  /** The stage table after a _stage_map call that succeeded, with stored names indexed by
      `key`: the rows of the missing stages appended under fresh keys. */
  ghost predicate StagesFilled(before: map<Id, StageRow>, beforeNext: Id, after: map<Id, StageRow>, afterNext: Id,
                               key: string -> string) {
    var missing := Missing(KeyNames(before, key), Key);
    after == before + CreatedRows(missing, beforeNext, ApiStageRow) && afterNext == beforeNext + |missing|
  }

  /** The fill only appends: a row stored before keeps its key and its contents. */
  lemma StoredRowKept(before: map<Id, StageRow>, beforeNext: Id, after: map<Id, StageRow>, afterNext: Id,
                      key: string -> string, k: Id)
    requires KeysBelow(before, beforeNext)
    requires StagesFilled(before, beforeNext, after, afterNext, key)
    requires k in before
    ensures k in after && after[k] == before[k]
    ensures before.Keys <= after.Keys
  {
    CreatedRowsSpec(Missing(KeyNames(before, key), Key), beforeNext, ApiStageRow);
  }

  // ---------------------------------------------------------------------------
  // _stage_map as written: by_name is keyed by the lower-cased stored name

  /** The condition under which the as-written fill fails: a row is named "In Progress",
      so its label is taken, while no row lower-cases to the key "in_progress", so the
      stage counts as missing and its label is inserted a second time. */
  predicate InProgressClash(stages: map<Id, StageRow>) {
    "In Progress" in Names(stages) && "in_progress" !in KeyNames(stages, Lower)
  }

  lemma LabelIndexed(stages: map<Id, StageRow>, key: string -> string, s: Stage)
    requires Label(s) in Names(stages)
    ensures key(Label(s)) in KeyNames(stages, key)
  {
    var id :| id in stages && stages[id].name == Label(s);
  }

  /** The as-written fill collides exactly in the "In Progress" case. */
  lemma AsWrittenCollision(stages: map<Id, StageRow>)
    ensures Collides(stages, Missing(KeyNames(stages, Lower), Key)) <==> InProgressClash(stages)
  {
    var missing := Missing(KeyNames(stages, Lower), Key);
    MissingSpec(KeyNames(stages, Lower), Key);
    forall s | s != InProgress && Label(s) in Names(stages) ensures s !in missing {
      LowerLabel(s);
      LabelIndexed(stages, Lower, s);
    }
    AllStagesEnumerates(InProgress);
  }

  /** The row the as-written map resolves for stage s: a stored row whose name
      lower-cases to the stage's key when there is one (the one by_name kept), and
      otherwise the row this call created for s. */
  ghost predicate AsWrittenEntry(before: map<Id, StageRow>, after: map<Id, StageRow>, id: Id, s: Stage) {
    && id in after
    && (Key(s) in KeyNames(before, Lower) ==>
          id in before && after[id] == before[id] && Lower(before[id].name) == Key(s))
    && (Key(s) !in KeyNames(before, Lower) ==> id !in before && after[id] == ApiStageRow(s))
  }

  /** Either way the resolved row's name normalises to the stage's key. */
  lemma AsWrittenEntryStage(before: map<Id, StageRow>, after: map<Id, StageRow>, id: Id, s: Stage)
    requires AsWrittenEntry(before, after, id, s)
    ensures NormalizeStageName(after[id].name) == Key(s)
  {
    NormalizeLabel(s);
    if Key(s) in KeyNames(before, Lower) {
      LowerKeyNormalizes(before[id].name, s);
    }
  }

  lemma LowerKeyNormalizes(name: string, s: Stage)
    requires Lower(name) == Key(s)
    ensures NormalizeStageName(name) == Key(s)
  {
    LowerLabel(s);
    NormalizeLabel(s);
  }

  /** _stage_map as written. On success the dictionary holds every lower-cased stored
      name, each pointing at a stored row with that lower-cased name, plus the keys of
      the stages it created; each of the four keys resolves as AsWrittenEntry says. */
  method StageMap(db: Db) returns (r: Result<map<string, Id>>)
    requires db.Valid()
    modifies db
    ensures db.Valid()
    ensures db.users == old(db.users) && db.departments == old(db.departments)
    ensures db.categories == old(db.categories) && db.teams == old(db.teams) && db.members == old(db.members)
    ensures db.equipment == old(db.equipment) && db.requests == old(db.requests)
    ensures r.Err? <==> InProgressClash(old(db.stages))
    ensures r.Err? ==> r.failure == IntegrityError && db.stages == old(db.stages) && db.nextId == old(db.nextId)
    ensures r.Ok? ==>
      var missing := Missing(KeyNames(old(db.stages), Lower), Key);
      && StagesFilled(old(db.stages), old(db.nextId), db.stages, db.nextId, Lower)
      && r.value.Keys == KeyNames(old(db.stages), Lower) + WantedKeys(missing, Key)
      && (forall k :: k in KeyNames(old(db.stages), Lower) ==>
            r.value[k] in old(db.stages) && Lower(old(db.stages)[r.value[k]].name) == k)
      && (forall s :: Key(s) in r.value && AsWrittenEntry(old(db.stages), db.stages, r.value[Key(s)], s))
  {
    forall a, b | Key(a) == Key(b) ensures a == b { KeyInjective(a, b); }
    r := FillStages(db, Lower, Key, ApiStageRow);
    AsWrittenCollision(old(db.stages));
    if r.Ok? {
      assert AsWrittenFilled(old(db.stages), old(db.nextId), r.value);
      AsWrittenResult(old(db.stages), old(db.nextId), r.value);
    }
  }

  /** What the shared fill routine promises about the dictionary of the as-written call. */
  ghost predicate AsWrittenFilled(stages: map<Id, StageRow>, from: Id, byName: map<string, Id>) {
    var missing := Missing(KeyNames(stages, Lower), Key);
    && KeysBelow(stages, from)
    && IndexedBy(byName - WantedKeys(missing, Key), stages, stages.Keys, Lower)
    && (forall j :: 0 <= j < |missing| ==>
          && Key(missing[j]) in byName
          && byName[Key(missing[j])] == from + j)
  }

  /** What the as-written fill returns, read off the shared fill routine's result. */
  lemma AsWrittenResult(stages: map<Id, StageRow>, from: Id, byName: map<string, Id>)
    requires AsWrittenFilled(stages, from, byName)
    ensures var missing := Missing(KeyNames(stages, Lower), Key);
      var table := stages + CreatedRows(missing, from, ApiStageRow);
      && byName.Keys == KeyNames(stages, Lower) + WantedKeys(missing, Key)
      && (forall k :: k in KeyNames(stages, Lower) ==> byName[k] in stages && Lower(stages[byName[k]].name) == k)
      && (forall s :: Key(s) in byName && AsWrittenEntry(stages, table, byName[Key(s)], s))
  {
    var missing := Missing(KeyNames(stages, Lower), Key);
    var table := stages + CreatedRows(missing, from, ApiStageRow);
    MissingSpec(KeyNames(stages, Lower), Key);
    AsWrittenStored(stages, from, byName);
    AsWrittenKeys(stages, from, byName);
    forall s ensures Key(s) in byName && AsWrittenEntry(stages, table, byName[Key(s)], s) {
      AsWrittenStage(stages, from, byName, missing, table, s);
    }
  }

  /** A stored lower-cased name keeps the entry by_name gave it. */
  lemma AsWrittenStored(stages: map<Id, StageRow>, from: Id, byName: map<string, Id>)
    requires AsWrittenFilled(stages, from, byName)
    ensures forall k :: k in KeyNames(stages, Lower) ==>
      && k !in WantedKeys(Missing(KeyNames(stages, Lower), Key), Key)
      && k in byName && byName[k] in stages && Lower(stages[byName[k]].name) == k
  {
    forall k | k in KeyNames(stages, Lower)
      ensures k !in WantedKeys(Missing(KeyNames(stages, Lower), Key), Key)
      ensures k in byName && byName[k] in stages && Lower(stages[byName[k]].name) == k
    {
      AsWrittenStoredKey(stages, from, byName, k);
    }
  }

  lemma AsWrittenStoredKey(stages: map<Id, StageRow>, from: Id, byName: map<string, Id>, k: string)
    requires AsWrittenFilled(stages, from, byName)
    requires k in KeyNames(stages, Lower)
    ensures k !in WantedKeys(Missing(KeyNames(stages, Lower), Key), Key)
    ensures k in byName && byName[k] in stages && Lower(stages[byName[k]].name) == k
  {
    var missing := Missing(KeyNames(stages, Lower), Key);
    var wanted := WantedKeys(missing, Key);
    MissingSpec(KeyNames(stages, Lower), Key);
    forall t | t in missing ensures Key(t) != k { }
    StoredEntry(stages, from, missing, byName, Lower, Key, ApiStageRow, k);
    assert k in byName - wanted;
  }

  /** The dictionary holds the stored lower-cased names and the created keys, nothing else. */
  lemma AsWrittenKeys(stages: map<Id, StageRow>, from: Id, byName: map<string, Id>)
    requires AsWrittenFilled(stages, from, byName)
    ensures byName.Keys == KeyNames(stages, Lower) + WantedKeys(Missing(KeyNames(stages, Lower), Key), Key)
  {
    var missing := Missing(KeyNames(stages, Lower), Key);
    var wanted := WantedKeys(missing, Key);
    AsWrittenStored(stages, from, byName);
    forall k | k in byName ensures k in KeyNames(stages, Lower) + wanted {
      if k !in wanted {
        assert k in byName - wanted;
        var id := byName[k];
        assert id in stages && Lower(stages[id].name) == k;
      }
    }
    forall k | k in wanted ensures k in byName {
      var s :| s in missing && Key(s) == k;
      var j := IndexOf(missing, s);
    }
  }

  /** Each of the four keys resolves as AsWrittenEntry says, given what the fill promises
      about the missing stages' entries and the stored names' entries. */
  lemma AsWrittenStage(stages: map<Id, StageRow>, from: Id, byName: map<string, Id>,
                       missing: seq<Stage>, table: map<Id, StageRow>, s: Stage)
    requires KeysBelow(stages, from)
    requires table == stages + CreatedRows(missing, from, ApiStageRow)
    requires forall t :: t in missing <==> Key(t) !in KeyNames(stages, Lower)
    requires forall j :: 0 <= j < |missing| ==> Key(missing[j]) in byName && byName[Key(missing[j])] == from + j
    requires forall k :: k in KeyNames(stages, Lower) ==>
      k in byName && byName[k] in stages && Lower(stages[byName[k]].name) == k
    ensures Key(s) in byName && AsWrittenEntry(stages, table, byName[Key(s)], s)
  {
    var names := KeyNames(stages, Lower);
    if s in missing {
      var j := IndexOf(missing, s);
      CreatedEntry(stages, from, missing, j);
      assert Key(s) !in names && byName[Key(s)] == from + j;
    } else {
      assert Key(s) in names;
      var id := byName[Key(s)];
      assert id in stages && Lower(stages[id].name) == Key(s);
      StoredKept(stages, from, missing, id);
    }
  }

  /** The j-th missing stage's row sits under from + j, a key that was not stored. */
  lemma CreatedEntry(stages: map<Id, StageRow>, from: Id, missing: seq<Stage>, j: nat)
    requires KeysBelow(stages, from)
    requires j < |missing|
    ensures var table := stages + CreatedRows(missing, from, ApiStageRow);
      from + j in table && from + j !in stages && table[from + j] == ApiStageRow(missing[j])
  {
    CreatedRowsSpec(missing, from, ApiStageRow);
  }

  /** A stored row keeps its contents in the filled table. */
  lemma StoredKept(stages: map<Id, StageRow>, from: Id, missing: seq<Stage>, id: Id)
    requires KeysBelow(stages, from)
    requires id in stages
    ensures var table := stages + CreatedRows(missing, from, ApiStageRow);
      id in table && table[id] == stages[id]
  {
    CreatedRowsSpec(missing, from, ApiStageRow);
  }

  function IndexOf(ss: seq<Stage>, s: Stage): (j: nat)
    requires s in ss
    ensures j < |ss| && ss[j] == s
  {
    if ss[0] == s then 0 else 1 + IndexOf(ss[1..], s)
  }

  /** Discrepancy: on a store filled by the first call on an empty database, a second
      call of the as-written map fails. */
  lemma StageMapSecondCallFails()
    ensures Missing(KeyNames(map[], Lower), Key) == AllStages
    ensures InProgressClash(CreatedRows(AllStages, 1, ApiStageRow))
  {
    var created := CreatedRows(AllStages, 1, ApiStageRow);
    CreatedRowsSpec(AllStages, 1, ApiStageRow);
    assert AllStages[1] == InProgress;
    assert created[1 + 1] == ApiStageRow(AllStages[1]);
    forall id | id in created ensures Lower(created[id].name) != "in_progress" {
      var s := AllStages[id - 1];
      LowerLabel(s);
    }
  }

  /** After any call of the as-written map that filled an empty stage table, whatever keys
      the rows got, every later call collides: a route that succeeds on an empty table is
      followed by 500s from every route that calls the map. */
  lemma FilledEmptyTableClashes(from: Id, after: map<Id, StageRow>, afterNext: Id)
    requires StagesFilled(map[], from, after, afterNext, Lower)
    ensures InProgressClash(after)
  {
    assert KeyNames(map[], Lower) == {};
    assert Missing(KeyNames(map[], Lower), Key) == AllStages;
    CreatedRowsSpec(AllStages, from, ApiStageRow);
    assert AllStages[1] == InProgress;
    assert after[from + 1] == ApiStageRow(AllStages[1]);
    forall id | id in after ensures Lower(after[id].name) != "in_progress" {
      var s := AllStages[id - from];
      LowerLabel(s);
    }
  }

  /** The same failure on the table the seeding script creates. */
  lemma StageMapFailsOnSeededTable()
    ensures InProgressClash(CreatedRows(AllStages, 1, SeedStageRow))
  {
    var created := CreatedRows(AllStages, 1, SeedStageRow);
    CreatedRowsSpec(AllStages, 1, SeedStageRow);
    assert AllStages[1] == InProgress;
    assert created[1 + 1] == SeedStageRow(AllStages[1]);
    forall id | id in created ensures Lower(created[id].name) != "in_progress" {
      var s := AllStages[id - 1];
      LowerLabel(s);
    }
  }

  // ---------------------------------------------------------------------------
  // The corrected map: by_name is keyed by the normalised stored name



  /** A returned dictionary that resolves every logical key to a stored row of that stage. */
  ghost predicate ResolvesStages(byName: map<string, Id>, stages: map<Id, StageRow>) {
    && (forall k :: k in byName ==> byName[k] in stages && NormalizeStageName(stages[byName[k]].name) == k)
    && (forall s :: Key(s) in byName)
  }

  /** The corrected fill never collides: a stored label normalises to its own key, so its
      stage is never missing. */
  lemma NormalizedNeverCollides(stages: map<Id, StageRow>)
    ensures !Collides(stages, Missing(KeyNames(stages, NormalizeStageName), Key))
  {
    MissingSpec(KeyNames(stages, NormalizeStageName), Key);
    forall s | Label(s) in Names(stages) ensures s !in Missing(KeyNames(stages, NormalizeStageName), Key) {
      NormalizeLabel(s);
      LabelIndexed(stages, NormalizeStageName, s);
    }
  }

  /** After a corrected fill no stage is missing, so a second fill creates nothing. */
  lemma NormalizedFillComplete(before: map<Id, StageRow>, beforeNext: Id, after: map<Id, StageRow>, afterNext: Id)
    requires KeysBelow(before, beforeNext)
    requires StagesFilled(before, beforeNext, after, afterNext, NormalizeStageName)
    ensures Missing(KeyNames(after, NormalizeStageName), Key) == []
    ensures StagesFilled(after, afterNext, after, afterNext, NormalizeStageName)
  {
    forall s ensures NormalizeStageName(ApiStageRow(s).name) == Key(s) {
      NormalizeLabel(s);
    }
    FillComplete(before, beforeNext, NormalizeStageName, Key, ApiStageRow);
  }

  /** A fill whose created rows carry their own wanted key leaves no stage missing. */
  lemma FillComplete(before: map<Id, StageRow>, from: Id, key: string -> string, want: Stage -> string,
                     row: Stage -> StageRow)
    requires KeysBelow(before, from)
    requires forall s :: key(row(s).name) == want(s)
    ensures var after := before + CreatedRows(Missing(KeyNames(before, key), want), from, row);
      Missing(KeyNames(after, key), want) == []
  {
    var missing := Missing(KeyNames(before, key), want);
    MissingSpec(KeyNames(before, key), want);
    EveryStagePresent(before, from, missing, key, want, row);
    NoneMissing(KeyNames(before + CreatedRows(missing, from, row), key), want);
  }

  lemma EveryStagePresent(before: map<Id, StageRow>, from: Id, missing: seq<Stage>, key: string -> string,
                          want: Stage -> string, row: Stage -> StageRow)
    requires KeysBelow(before, from)
    requires forall s :: s in missing <==> want(s) !in KeyNames(before, key)
    requires forall s :: key(row(s).name) == want(s)
    ensures forall s :: want(s) in KeyNames(before + CreatedRows(missing, from, row), key)
  {
    var after := before + CreatedRows(missing, from, row);
    CreatedRowsSpec(missing, from, row);
    forall s ensures want(s) in KeyNames(after, key) {
      if s in missing {
        var j := IndexOf(missing, s);
        RowOrigin(before, missing, from, row, from + j);
        assert key(after[from + j].name) == want(s);
      } else {
        var id :| id in before && key(before[id].name) == want(s);
        RowOrigin(before, missing, from, row, id);
        assert after[id] == before[id];
      }
    }
  }

  lemma NoneMissing(present: set<string>, want: Stage -> string)
    requires forall s :: want(s) in present
    ensures Missing(present, want) == []
  {
  }

  /** The dictionary a successful fill returns resolves each of its keys, and every wanted
      key, to a row of the new table whose name carries that key. */
  lemma FillResolves(stages: map<Id, StageRow>, from: Id, missing: seq<Stage>, byName: map<string, Id>,
                     key: string -> string, want: Stage -> string, row: Stage -> StageRow)
    requires KeysBelow(stages, from)
    requires forall s :: s in missing <==> want(s) !in KeyNames(stages, key)
    requires forall s :: key(row(s).name) == want(s)
    requires IndexedBy(byName - WantedKeys(missing, want), stages, stages.Keys, key)
    requires forall j :: 0 <= j < |missing| ==> want(missing[j]) in byName && byName[want(missing[j])] == from + j
    ensures var table := stages + CreatedRows(missing, from, row);
      && (forall k :: k in byName ==> byName[k] in table && key(table[byName[k]].name) == k)
      && (forall s :: want(s) in byName)
  {
    var table := stages + CreatedRows(missing, from, row);
    CreatedRowsSpec(missing, from, row);
    forall k | k in byName ensures byName[k] in table && key(table[byName[k]].name) == k {
      if k in WantedKeys(missing, want) {
        var s :| s in missing && want(s) == k;
        var j := IndexOf(missing, s);
        RowOrigin(stages, missing, from, row, from + j);
      } else {
        assert k in byName - WantedKeys(missing, want);
        RowOrigin(stages, missing, from, row, byName[k]);
      }
    }
    forall s ensures want(s) in byName {
      if s in missing {
        var j := IndexOf(missing, s);
      } else {
        var id :| id in stages && key(stages[id].name) == want(s);
        assert want(s) !in WantedKeys(missing, want);
      }
    }
  }

  /** The returned dictionary is keyed by exactly the keys of the new table's names. */
  lemma FillKeys(stages: map<Id, StageRow>, from: Id, missing: seq<Stage>, byName: map<string, Id>,
                 key: string -> string, want: Stage -> string, row: Stage -> StageRow)
    requires KeysBelow(stages, from)
    requires forall s :: key(row(s).name) == want(s)
    requires IndexedBy(byName - WantedKeys(missing, want), stages, stages.Keys, key)
    requires forall j :: 0 <= j < |missing| ==> want(missing[j]) in byName
    requires forall k :: k in byName ==>
      byName[k] in stages + CreatedRows(missing, from, row) && key((stages + CreatedRows(missing, from, row))[byName[k]].name) == k
    ensures byName.Keys == KeyNames(stages + CreatedRows(missing, from, row), key)
  {
    var table := stages + CreatedRows(missing, from, row);
    forall k | k in byName ensures k in KeyNames(table, key) {
      var id := byName[k];
      assert id in table && key(table[id].name) == k;
    }
    forall k | k in KeyNames(table, key) ensures k in byName {
      var id :| id in table && key(table[id].name) == k;
      RowOrigin(stages, missing, from, row, id);
      if id !in CreatedRows(missing, from, row) {
        assert key(stages[id].name) in byName - WantedKeys(missing, want);
      }
    }
  }

  /** A stored row's entry survives the fill unchanged. */
  lemma StoredEntry(stages: map<Id, StageRow>, from: Id, missing: seq<Stage>, byName: map<string, Id>,
                    key: string -> string, want: Stage -> string, row: Stage -> StageRow, k: string)
    requires KeysBelow(stages, from)
    requires IndexedBy(byName - WantedKeys(missing, want), stages, stages.Keys, key)
    requires k in KeyNames(stages, key) && k !in WantedKeys(missing, want)
    ensures k in byName && byName[k] in stages
    ensures var table := stages + CreatedRows(missing, from, row);
      byName[k] in table && table[byName[k]] == stages[byName[k]] && key(table[byName[k]].name) == k
  {
    var id :| id in stages && key(stages[id].name) == k;
    assert k in byName - WantedKeys(missing, want);
    RowOrigin(stages, missing, from, row, byName[k]);
  }

  /** The corrected _stage_map: stored names indexed by _normalize_stage_name, so a stored
      stage is always found and nothing is inserted twice. */
  method StageMapNormalized(db: Db) returns (byName: map<string, Id>)
    requires db.Valid()
    modifies db
    ensures db.Valid()
    ensures db.users == old(db.users) && db.departments == old(db.departments)
    ensures db.categories == old(db.categories) && db.teams == old(db.teams) && db.members == old(db.members)
    ensures db.equipment == old(db.equipment) && db.requests == old(db.requests)
    ensures StagesFilled(old(db.stages), old(db.nextId), db.stages, db.nextId, NormalizeStageName)
    ensures ResolvesStages(byName, db.stages)
  {
    forall a, b | Key(a) == Key(b) ensures a == b { KeyInjective(a, b); }
    forall s ensures NormalizeStageName(ApiStageRow(s).name) == Key(s) {
      NormalizeLabel(s);
    }
    NormalizedNeverCollides(db.stages);
    MissingSpec(KeyNames(db.stages, NormalizeStageName), Key);
    var r := FillStages(db, NormalizeStageName, Key, ApiStageRow);
    byName := r.value;
    FillResolves(old(db.stages), old(db.nextId), Missing(KeyNames(old(db.stages), NormalizeStageName), Key),
                 byName, NormalizeStageName, Key, ApiStageRow);
  }
}

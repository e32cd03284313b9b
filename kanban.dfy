/** The decision logic of frontend/src/components/Kanban.tsx: the four columns, the
    bucketing of request cards into them, the overdue marker, the avatar initials and
    the drag-end decision that asks for a stage change. */
module Kanban {
  import opened Outcomes
  import opened Text
  import opened Stages

  /** The fields of a RequestCard the board's logic reads. The stage is a string: the
      board does not trust it to be one of the four keys. */
  datatype Card = Card(id: int, stage: string, overdue: bool, assigneeName: Option<string>)

  datatype Column = Column(id: string, title: string)

  /** The columns, left to right. */
  const Columns: seq<Column> := [
    Column("new", "New"),
    Column("in_progress", "In Progress"),
    Column("repaired", "Repaired"),
    Column("scrap", "Scrap")
  ]

  /** The stage keys the board recognises. */
  const StageKeys: seq<string> := ["new", "in_progress", "repaired", "scrap"]

  /** The columns are the four stages in the order new, in_progress, repaired, scrap,
      each titled with the stage's label; the recognised keys are exactly the stage keys. */
  lemma ColumnsInOrder()
    ensures |Columns| == |AllStages| == |StageKeys|
    ensures forall i :: 0 <= i < |Columns| ==>
      Columns[i].id == Key(AllStages[i]) == StageKeys[i] && Columns[i].title == Label(AllStages[i])
    ensures forall k :: k in StageKeys <==> IsKey(k)
  {
  }

  // ---------------------------------------------------------------------------
  // itemsByStage

  /** The bucket a card is pushed to: its own stage when that is a key, new otherwise. */
  function BucketOf(stage: string): (s: Stage)
    ensures IsKey(stage) ==> Key(s) == stage
    ensures !IsKey(stage) ==> s == New
  {
    match ParseKey(stage)
    case Some(s) => s
    case None => New
  }

  /** The cards of bucket s, in input order. */
  function Bucket(cards: seq<Card>, s: Stage): seq<Card> {
    if cards == [] then []
    else
      var last := cards[|cards| - 1];
      Bucket(cards[..|cards| - 1], s) + (if BucketOf(last.stage) == s then [last] else [])
  }

  /** The forEach over the requests, pushing each card onto the end of its bucket. */
  method ItemsByStage(cards: seq<Card>) returns (buckets: map<Stage, seq<Card>>)
    ensures buckets.Keys == {New, InProgress, Repaired, Scrap}
    ensures forall s :: s in buckets ==> buckets[s] == Bucket(cards, s)
  {
    buckets := map[New := [], InProgress := [], Repaired := [], Scrap := []];
    for i := 0 to |cards|
      invariant buckets.Keys == {New, InProgress, Repaired, Scrap}
      invariant forall s :: s in buckets ==> buckets[s] == Bucket(cards[..i], s)
    {
      assert cards[..i + 1][..i] == cards[..i];
      var s := BucketOf(cards[i].stage);
      buckets := buckets[s := buckets[s] + [cards[i]]];
    }
    assert cards[..|cards|] == cards;
  }

  /** A card is in bucket s exactly when it is one of the cards and s is its bucket. */
  lemma {:induction false} BucketMembership(cards: seq<Card>, s: Stage, c: Card)
    ensures c in Bucket(cards, s) <==> c in cards && BucketOf(c.stage) == s
  {
    if cards != [] {
      var init := cards[..|cards| - 1];
      BucketMembership(init, s, c);
      assert cards == init + [cards[|cards| - 1]];
    }
  }

  /** Bucketing commutes with concatenation: the cards of a bucket keep their input order. */
  lemma {:induction false} BucketAppend(xs: seq<Card>, ys: seq<Card>, s: Stage)
    ensures Bucket(xs + ys, s) == Bucket(xs, s) + Bucket(ys, s)
  {
    if ys == [] {
      assert xs + ys == xs;
    } else {
      var init := ys[..|ys| - 1];
      BucketAppend(xs, init, s);
      assert (xs + ys)[..|xs + ys| - 1] == xs + init;
    }
  }

  /** The last card goes to its own bucket and to no other. */
  lemma BucketStep(cards: seq<Card>, s: Stage)
    requires cards != []
    ensures multiset(Bucket(cards, s)) ==
      multiset(Bucket(cards[..|cards| - 1], s)) +
      (if BucketOf(cards[|cards| - 1].stage) == s then multiset{cards[|cards| - 1]} else multiset{})
  {
  }

  /** Adding one element to exactly one of four parts adds it to their sum. */
  lemma AddToOnePart(m0: multiset<Card>, m1: multiset<Card>, m2: multiset<Card>, m3: multiset<Card>,
                     n0: multiset<Card>, n1: multiset<Card>, n2: multiset<Card>, n3: multiset<Card>,
                     one: multiset<Card>, k: Stage)
    requires n0 == m0 + (if k == New then one else multiset{})
    requires n1 == m1 + (if k == InProgress then one else multiset{})
    requires n2 == m2 + (if k == Repaired then one else multiset{})
    requires n3 == m3 + (if k == Scrap then one else multiset{})
    ensures n0 + n1 + n2 + n3 == m0 + m1 + m2 + m3 + one
  {
  }

  /** The four buckets split the cards: every card lands in exactly one of them, so
      together they hold every card once. */
  lemma {:induction false} BucketsPartition(cards: seq<Card>)
    ensures multiset(Bucket(cards, New)) + multiset(Bucket(cards, InProgress))
          + multiset(Bucket(cards, Repaired)) + multiset(Bucket(cards, Scrap)) == multiset(cards)
  {
    if cards != [] {
      var init, last := cards[..|cards| - 1], cards[|cards| - 1];
      BucketsPartition(init);
      BucketStep(cards, New);
      BucketStep(cards, InProgress);
      BucketStep(cards, Repaired);
      BucketStep(cards, Scrap);
      AddToOnePart(multiset(Bucket(init, New)), multiset(Bucket(init, InProgress)),
                   multiset(Bucket(init, Repaired)), multiset(Bucket(init, Scrap)),
                   multiset(Bucket(cards, New)), multiset(Bucket(cards, InProgress)),
                   multiset(Bucket(cards, Repaired)), multiset(Bucket(cards, Scrap)),
                   multiset{last}, BucketOf(last.stage));
      assert cards == init + [last];
    }
  }

  /** The bucket sizes sum to the number of cards. */
  lemma BucketSizes(cards: seq<Card>)
    ensures |Bucket(cards, New)| + |Bucket(cards, InProgress)| + |Bucket(cards, Repaired)| + |Bucket(cards, Scrap)| == |cards|
  {
    BucketsPartition(cards);
    var a, b, c, d := Bucket(cards, New), Bucket(cards, InProgress), Bucket(cards, Repaired), Bucket(cards, Scrap);
    assert |multiset(a) + multiset(b) + multiset(c) + multiset(d)| == |a| + |b| + |c| + |d|;
  }

  // ---------------------------------------------------------------------------
  // overdue

  /** The overdue marker: the request is overdue and not in a closed stage. */
  predicate ShowsOverdue(c: Card) {
    c.overdue && c.stage != "repaired" && c.stage != "scrap"
  }

  /** A card with the marker sits in the new or the in-progress column, and a card the
      backend calls overdue that sits in an open column shows it. */
  lemma OverdueOnlyOpen(c: Card)
    ensures ShowsOverdue(c) ==> BucketOf(c.stage) in {New, InProgress}
    ensures c.overdue && BucketOf(c.stage) in {New, InProgress} ==> ShowsOverdue(c)
  {
  }

  // ---------------------------------------------------------------------------
  // Avatar initials

  /** The first character of each word (nothing for an empty word), concatenated. */
  function FirstChars(words: seq<string>): (r: string)
    ensures |r| <= |words|
  {
    if words == [] then ""
    else (if words[0] == "" then "" else [words[0][0]]) + FirstChars(words[1..])
  }

  /** When no word is empty, the i-th character is the first character of the i-th word. */
  lemma {:induction false} FirstCharsOfWords(words: seq<string>)
    requires forall k :: 0 <= k < |words| ==> words[k] != ""
    ensures |FirstChars(words)| == |words|
    ensures forall i :: 0 <= i < |words| ==> FirstChars(words)[i] == words[i][0]
  {
    if words != [] {
      FirstCharsOfWords(words[1..]);
      forall i | 0 < i < |words| ensures FirstChars(words)[i] == words[i][0] {
        assert words[1..][i - 1] == words[i];
      }
    }
  }

  /** The fallback text of the avatar: name.split(" "), the first character of each
      piece, joined, cut to two characters and upper-cased. */
  function Initials(name: string): (r: string)
    ensures |r| <= 2
  {
    var firsts := FirstChars(Split(name, ' '));
    Upper(if |firsts| <= 2 then firsts else firsts[..2])
  }

  /** For a name built from words joined by single spaces, the initials are the
      upper-cased first characters of the first two non-empty words. */
  lemma InitialsOfWords(words: seq<string>)
    requires |words| > 0
    requires forall k :: 0 <= k < |words| ==> Free(words[k], ' ')
    ensures Initials(JoinWith(words, ' ')) ==
      var firsts := FirstChars(words); Upper(if |firsts| <= 2 then firsts else firsts[..2])
  {
    JoinSplit(words, ' ');
  }

  /** The initials of a two-word name. */
  lemma InitialsExample()
    ensures Initials("Tech One") == "TO"
  {
    var words := ["Tech", "One"];
    assert words[1..] == ["One"];
    assert JoinWith(words, ' ') == "Tech" + " " + "One" == "Tech One";
    InitialsOfWords(words);
    assert FirstChars(words) == "TO";
    assert Upper("TO") == "TO";
  }

  // ---------------------------------------------------------------------------
  // handleDragEnd

  /** A dnd-kit identifier: a card's is its request id, a column's its stage key. */
  datatype DndId = TextId(text: string) | NumberId(number: int)

  /** What the card was dropped over: the sortable container it belongs to, if any, and its id. */
  datatype Over = Over(containerId: Option<string>, id: DndId)

  /** The candidate target: a non-empty container id, else the id when it is a non-empty
      string. A numeric id (a card) is never a stage key, so it yields nothing. */
  function DropTarget(over: Over): (t: Option<string>)
    ensures t.Some? ==> t.value != ""
    ensures over.containerId.Some? && over.containerId.value != "" ==> t == over.containerId
  {
    if over.containerId.Some? && over.containerId.value != "" then over.containerId
    else match over.id
      case TextId(text) => if text != "" then Some(text) else None
      case NumberId(_) => None
  }

  /** requests.find: the first card with the id. */
  function FindCard(cards: seq<Card>, id: int): (r: Option<Card>)
    ensures r.Some? <==> exists i :: 0 <= i < |cards| && cards[i].id == id
    ensures r.Some? ==> exists i :: 0 <= i < |cards| && cards[i] == r.value && r.value.id == id &&
                                   forall j :: 0 <= j < i ==> cards[j].id != id
  {
    if cards == [] then None
    else if cards[0].id == id then Some(cards[0])
    else
      var r := FindCard(cards[1..], id);
      if r.Some? then
        var i :| 0 <= i < |cards[1..]| && cards[1..][i] == r.value && r.value.id == id &&
                 forall j :: 0 <= j < i ==> cards[1..][j].id != id;
        assert cards[i + 1] == r.value;
        r
      else
        r
  }

  /** The onStageChange call a drop makes, if any. */
  function HandleDragEnd(over: Option<Over>, activeId: int, cards: seq<Card>): (call: Option<(int, Stage)>)
    ensures call.Some? <==>
      && over.Some?
      && DropTarget(over.value).Some? && IsKey(DropTarget(over.value).value)
      && FindCard(cards, activeId).Some?
      && FindCard(cards, activeId).value.stage != DropTarget(over.value).value
    ensures call.Some? ==>
      && call.value.0 == activeId
      && Key(call.value.1) == DropTarget(over.value).value
  {
    if over.None? then None
    else
      var target := DropTarget(over.value);
      if target.None? || !IsKey(target.value) then None
      else
        var card := FindCard(cards, activeId);
        if card.None? || card.value.stage == target.value then None
        else Some((activeId, ParseKey(target.value).value))
  }

  /** A drop never asks to move a card to the column it shows in when its stage is a
      key, and dropping on a different column of a known card always asks. */
  lemma DropDecisions(c: Card, cards: seq<Card>, target: Stage)
    requires FindCard(cards, c.id) == Some(c)
    ensures HandleDragEnd(Some(Over(None, TextId(Key(target)))), c.id, cards) ==
      (if c.stage == Key(target) then None else Some((c.id, target)))
    ensures IsKey(c.stage) ==> HandleDragEnd(Some(Over(Some(c.stage), NumberId(c.id))), c.id, cards) == None
  {
    KeyRoundTrip(target);
  }
}

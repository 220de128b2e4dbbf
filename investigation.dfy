/** One game of Detective Quest: the walk through the mansion that collects
    clues (`explorarSalas`) and the final accusation (`verificarSuspeitoFinal`).
    The session owns the cursor, the root of the collected-clue tree and the
    suspect table; the player's keystrokes and the accused name come in as
    parameters, and what the game prints comes back as result values. */
module Investigation {
  import opened Wrappers
  import opened StringOrder
  import opened SuspectLedger
  import opened ClueTrees
  import opened ClueLedger
  import opened Mansion

  /** PISTAS_MINIMAS: clues needed to sustain an accusation. */
  const MinimumClues := 2

  datatype Ruling = Guilty | Insufficient

  /** What happened on arrival in a room: a clue was collected, and the
      suspect it points to when the table knows one; or nothing new. */
  datatype Arrival = NewClue(clue: string, hint: Option<string>) | NothingNew

  /** The outcome of one player option. */
  datatype Move = Moved | NoPath | Ended | InvalidOption

  /** `tolower` on the ASCII letters. */
  function ToLower(c: char): (r: char)
    ensures 'A' <= c <= 'Z' ==> r as int == c as int + 32
    ensures !('A' <= c <= 'Z') ==> r == c
  {
    if 'A' <= c <= 'Z' then (c as int + 32) as char else c
  }

  /** The verdict rule: guilty when at least `MinimumClues` clues support the
      accusation. */
  function Verdict(support: nat): Ruling {
    if support >= MinimumClues then Guilty else Insufficient
  }

  /** The verdict depends only on the distinct collected clues that point to
      the accused: guilty exactly when there are at least two of them. */
  lemma VerdictCountsDistinctClues(t: ClueTree, buckets: seq<seq<Association>>, accused: string)
    requires |buckets| == BucketCount && IsSearchTree(t)
    ensures Verdict(SupportCount(t, buckets, accused)) == Guilty
            <==> |Supporting(t, buckets, accused)| >= MinimumClues
  {
    SupportCountIsDistinctClues(t, buckets, accused);
  }

  /** The clues of the given rooms. */
  function CluesOf(rs: seq<Room>): (cs: set<string>)
  {
    if rs == [] then {} else CluesOf(rs[..|rs| - 1]) + {rs[|rs| - 1].clue}
  }

  /** A clue belongs to `CluesOf(rs)` exactly when one of the rooms holds it. */
  lemma {:induction false} CluesOfListsClues(rs: seq<Room>)
    ensures forall c :: c in CluesOf(rs) <==> exists i :: 0 <= i < |rs| && rs[i].clue == c
    decreases |rs|
  {
    if rs != [] {
      var init := rs[..|rs| - 1];
      CluesOfListsClues(init);
      forall c ensures c in CluesOf(rs) <==> exists i :: 0 <= i < |rs| && rs[i].clue == c {
        if c in CluesOf(init) {
          var i :| 0 <= i < |init| && init[i].clue == c;
          assert rs[i] == init[i];
        }
        if exists i :: 0 <= i < |rs| && rs[i].clue == c {
          var i :| 0 <= i < |rs| && rs[i].clue == c;
          if i < |init| {
            assert init[i] == rs[i];
          }
        }
      }
    }
  }

  /** The two exits of a room. */
  datatype Exits = Exits(left: Room?, right: Room?)

  /** Where the lower-cased option `o` takes the player from `room`, whose
      exits are `exits`: through the left (`e`) or right (`d`) exit when it
      exists, out of the mansion on `s`, and otherwise nowhere. */
  function Follow(exits: Exits, room: Room, o: char): Room? {
    if o == 'e' then (if exits.left != null then exits.left else room)
    else if o == 'd' then (if exits.right != null then exits.right else room)
    else if o == 's' then null
    else room
  }

  /** Where option `o` takes the player from `room` in the current map. */
  function Next(room: Room, o: char): Room?
    reads room`left, room`right
  {
    Follow(Exits(room.left, room.right), room, o)
  }

  /** The exits of every room of the map, as a value. */
  ghost function Links(rooms: set<Room>): map<Room, Exits>
    reads rooms`left, rooms`right
  {
    map r | r in rooms :: Exits(r.left, r.right)
  }

  /** The rooms the walk stands in, one per round, starting in `room` and
      taking the options in turn over the map `links`. The walk ends on `s`,
      and, by choice of this model, also when the options run out (the C
      program loops forever once its input is exhausted). */
  ghost function Walk(links: map<Room, Exits>, room: Room?, options: seq<char>): (visits: seq<Room>)
    ensures room == null || room !in links <==> visits == []
    ensures visits != [] ==> visits[0] == room
    decreases |options|
  {
    if room == null || room !in links then []
    else
      var o := if options == [] then 's' else ToLower(options[0]);
      var next := Follow(links[room], room, o);
      if next == null then [room] else [room] + Walk(links, next, options[1..])
  }

  /** The options still to be read after `i` have been read. */
  function Remaining(options: seq<char>, i: int): seq<char> {
    if 0 <= i <= |options| then options[i..] else []
  }

  /** The harvest `done` extended by the rooms of `visits` that hold a clue
      and are not yet in it, in the order they are reached. */
  function Gathered(visits: seq<Room>, done: seq<Room>): (r: seq<Room>)
    ensures done <= r
    decreases |visits|
  {
    if visits == [] then done
    else
      var room := visits[0];
      Gathered(visits[1..], if room.clue != [] && room !in done then done + [room] else done)
  }

  /** Every room reached that holds a clue is in the harvest, and nothing
      else joins it. */
  lemma {:induction false} GatheredCovers(visits: seq<Room>, done: seq<Room>)
    ensures forall r :: r in visits && r.clue != [] ==> r in Gathered(visits, done)
    ensures forall r :: r in Gathered(visits, done) ==> r in done || r in visits
    decreases |visits|
  {
    if visits != [] {
      var room := visits[0];
      var next := if room.clue != [] && room !in done then done + [room] else done;
      GatheredCovers(visits[1..], next);
      forall r | r in visits && r.clue != []
        ensures r in Gathered(visits, done)
      {
        if r != room {
          assert r in visits[1..];
        } else {
          assert r in next;
        }
      }
    }
  }

  /** Gathering along a walk split in two is gathering along the first part
      and then along the second. */
  lemma {:induction false} GatheredAppend(a: seq<Room>, b: seq<Room>, done: seq<Room>)
    ensures Gathered(a + b, done) == Gathered(b, Gathered(a, done))
    decreases |a|
  {
    if a != [] {
      var room := a[0];
      var next := if room.clue != [] && room !in done then done + [room] else done;
      assert (a + b)[0] == room && (a + b)[1..] == a[1..] + b;
      assert Gathered(a + b, done) == Gathered(a[1..] + b, next);
      assert Gathered(a, done) == Gathered(a[1..], next);
      GatheredAppend(a[1..], b, next);
    } else {
      assert a + b == b;
    }
  }

  class Session {
    /** `atual`: the room the player is in; `null` once the walk has ended. */
    var current: Room?
    /** `raiz_pistas`: the root of the collected-clue tree. */
    var clues: ClueNode?
    /** `tabela_suspeitos`: read-only during the game. */
    const suspects: SuspectTable
    /** The rooms of the map. */
    ghost const rooms: set<Room>
    /** The rooms whose clue has been collected, in the order of collection. */
    ghost var harvested: seq<Room>
    /** The nodes of the clue tree. */
    ghost var clueNodes: set<ClueNode>

    /** The clue tree is a well-formed search tree whose nodes are `clueNodes`. */
    ghost predicate TreeValid()
      reads this`clues, this`clueNodes, clueNodes
    {
      (clues == null ==> clueNodes == {}) &&
      (clues != null ==> clues in clueNodes && clueNodes == clues.Repr && clues.Valid()) &&
      IsSearchTree(ModelOf(clues))
    }

    /** The cursor stays on the map, and the collected flags of the map are
        set on exactly the harvested rooms, each harvested once and each
        holding a clue. */
    ghost predicate MapValid()
      reads this`current, this`harvested, rooms
    {
      Closed(rooms) &&
      (current != null ==> current in rooms) &&
      (forall i :: 0 <= i < |harvested| ==> harvested[i] in rooms && harvested[i].clue != []) &&
      (forall i, j :: 0 <= i < j < |harvested| ==> harvested[i] != harvested[j]) &&
      (forall r :: r in rooms ==> (r.collected <==> r in harvested))
    }

    /** The tree holds exactly the clues of the harvested rooms. */
    ghost predicate Valid()
      reads this, rooms, suspects, suspects.buckets, clueNodes
    {
      suspects.Valid() && MapValid() && TreeValid() &&
      Elements(ModelOf(clues)) == CluesOf(harvested)
    }

    /** The game starts in the entry room with no clue collected. */
    constructor (entry: Room, ghost rooms: set<Room>, suspects: SuspectTable)
      requires entry in rooms && Closed(rooms)
      requires forall r :: r in rooms ==> !r.collected
      requires suspects.Valid()
      ensures Valid()
      ensures current == entry && clues == null && harvested == []
      ensures this.rooms == rooms && this.suspects == suspects
    {
      current := entry;
      clues := null;
      this.suspects := suspects;
      this.rooms := rooms;
      harvested := [];
      clueNodes := {};
    }

    /** The collection step done on every arrival in a room: a clue that is
        present and not yet collected is inserted into the clue tree, the
        room's flag is set, and the suspect it points to is reported unless
        the table does not know it. Otherwise nothing changes. Because the
        flag is set at once, a room's clue enters the tree at most once. */
    method CollectHere() returns (arrival: Arrival)
      requires Valid() && current != null
      modifies this, current`collected, clueNodes
      ensures Valid()
      ensures current == old(current)
      ensures if !old(current.collected) && current.clue != [] then
                current.collected &&
                harvested == old(harvested) + [current] &&
                ModelOf(clues) == Insert(old(ModelOf(clues)), current.clue) &&
                var suspect := FirstMatch(suspects.registrations, current.clue);
                arrival == NewClue(current.clue, if suspect == Unknown then None else Some(suspect))
              else
                current.collected == old(current.collected) &&
                harvested == old(harvested) && ModelOf(clues) == old(ModelOf(clues)) &&
                arrival == NothingNew
      ensures old(harvested) <= harvested
      ensures fresh(clueNodes - old(clueNodes))
    {
      var room := current;
      if !room.collected && room.clue != [] {
        Record(room);
        var hint := Hint(room.clue);
        arrival := NewClue(room.clue, hint);
      } else {
        arrival := NothingNew;
      }
    }

    /** Both effects of collecting a room's clue: the clue enters the tree
        and the room is flagged and recorded as harvested. */
    method Record(room: Room)
      requires Valid() && room in rooms && !room.collected && room.clue != []
      modifies this`clues, this`clueNodes, clueNodes, room`collected, this`harvested
      ensures Valid()
      ensures room.collected && harvested == old(harvested) + [room]
      ensures ModelOf(clues) == Insert(old(ModelOf(clues)), room.clue)
      ensures fresh(clueNodes - old(clueNodes))
    {
      ghost var before := harvested;
      ghost var elements := Elements(ModelOf(clues));
      AddClue(room.clue);
      assert MapValid() && suspects.Valid();
      assert Elements(ModelOf(clues)) == elements + {room.clue};
      Harvest(room);
      assert TreeValid() && suspects.Valid();
      assert harvested[..|before|] == before;
      assert CluesOf(harvested) == CluesOf(before) + {room.clue};
    }

    /** `raiz_pistas = inserirPista(raiz_pistas, c)`: the tree gains `c` and
        stays a search tree; only the tree changes, by new nodes. */
    method AddClue(c: string)
      requires TreeValid()
      modifies this`clues, this`clueNodes, clueNodes
      ensures TreeValid()
      ensures ModelOf(clues) == Insert(old(ModelOf(clues)), c)
      ensures fresh(clueNodes - old(clueNodes))
    {
      InsertKeepsOrder(ModelOf(clues), c);
      clues := InsertClue(clues, c);
      clueNodes := clues.Repr;
    }

    /** The suspect a freshly collected clue points to, reported unless the
        table answers `Unknown`. */
    method Hint(clue: string) returns (hint: Option<string>)
      requires suspects.Valid()
      ensures var suspect := FirstMatch(suspects.registrations, clue);
              hint == if suspect == Unknown then None else Some(suspect)
    {
      var suspect := suspects.FindSuspect(clue);
      CompareZeroIffEqual(suspect, Unknown);
      if Compare(suspect, Unknown) != 0 {
        hint := Some(suspect);
      } else {
        hint := None;
      }
    }

    /** Sets the collected flag of a room that is not yet collected and
        records it as harvested. */
    method Harvest(room: Room)
      requires MapValid() && room in rooms && !room.collected && room.clue != []
      modifies room`collected, this`harvested
      ensures MapValid()
      ensures room.collected && harvested == old(harvested) + [room]
    {
      room.collected := true;
      harvested := harvested + [room];
    }

    /** One player option (after `tolower`): `e` and `d` move to the left or
        right exit when there is one and otherwise leave the player where
        they are; `s` ends the walk; anything else changes nothing. */
    method Step(option: char) returns (move: Move)
      requires Valid() && current != null
      modifies this`current
      ensures Valid()
      ensures var o := ToLower(option);
              if o == 'e' then
                if old(current.left) != null then current == old(current.left) && move == Moved
                else current == old(current) && move == NoPath
              else if o == 'd' then
                if old(current.right) != null then current == old(current.right) && move == Moved
                else current == old(current) && move == NoPath
              else if o == 's' then current == null && move == Ended
              else current == old(current) && move == InvalidOption
      ensures current == Next(old(current), ToLower(option))
    {
      var o := ToLower(option);
      if o == 'e' {
        if current.left != null {
          current := current.left;
          move := Moved;
        } else {
          move := NoPath;
        }
      } else if o == 'd' {
        if current.right != null {
          current := current.right;
          move := Moved;
        } else {
          move := NoPath;
        }
      } else if o == 's' {
        current := null;
        move := Ended;
      } else {
        move := InvalidOption;
      }
    }

    /** One round of the walk: collect in the current room as `CollectHere`
        does, then move as `Step` does. */
    method Turn(option: char) returns (arrival: Arrival, move: Move)
      requires Valid() && current != null
      modifies this, rooms`collected, clueNodes
      ensures Valid()
      ensures var room := old(current);
              if !old(room.collected) && room.clue != [] then
                room.collected &&
                harvested == old(harvested) + [room] &&
                ModelOf(clues) == Insert(old(ModelOf(clues)), room.clue) &&
                var suspect := FirstMatch(suspects.registrations, room.clue);
                arrival == NewClue(room.clue, if suspect == Unknown then None else Some(suspect))
              else
                room.collected == old(room.collected) &&
                harvested == old(harvested) && ModelOf(clues) == old(ModelOf(clues)) &&
                arrival == NothingNew
      ensures harvested == Gathered([old(current)], old(harvested))
      ensures current == Next(old(current), ToLower(option))
      ensures ToLower(option) == 's' ==> move == Ended
      ensures forall r :: r in rooms && old(r.collected) ==> r.collected
      ensures fresh(clueNodes - old(clueNodes))
    {
      assert current.collected <==> current in harvested;
      arrival := CollectHere();
      move := Step(option);
    }

    /** `explorarSalas`: on each arrival collect the room's clue, then take the
        next option. When the options run out the walk ends as on `s`; this
        is a choice of the model, since the C program never ends once its
        input is exhausted. The harvest grows by exactly the rooms the
        walk reaches that hold a clue not collected before, in the order they
        are first reached, so every room reached that holds a clue ends up
        collected and the tree holds exactly the collected clues. */
    method Explore(options: seq<char>)
      requires Valid()
      modifies this, rooms`collected, clueNodes
      ensures Valid() && current == null
      ensures harvested == Gathered(Walk(Links(rooms), old(current), options), old(harvested))
      ensures forall r :: r in Walk(Links(rooms), old(current), options) && r.clue != [] ==> r.collected
      ensures forall r :: r in rooms && old(r.collected) ==> r.collected
      ensures fresh(clueNodes - old(clueNodes))
    {
      ghost var visits := Walk(Links(rooms), current, options);
      GatheredCovers(visits, harvested);
      Rounds(options);
      forall r | r in visits && r.clue != []
        ensures r.collected
      {
        assert r in harvested;
      }
      forall r | r in rooms && old(r.collected)
        ensures r.collected
      {
        assert r in old(harvested);
      }
    }

    /** The rounds of `explorarSalas` until the walk leaves the mansion: the
        harvest grows by what is gathered along the walk, and the map's exits
        stay as they are. */
    method Rounds(options: seq<char>)
      requires Valid()
      modifies this, rooms`collected, clueNodes
      ensures Valid() && current == null && Links(rooms) == old(Links(rooms))
      ensures harvested == Gathered(Walk(Links(rooms), old(current), options), old(harvested))
      ensures fresh(clueNodes - old(clueNodes))
    {
      ghost var links := Links(rooms);
      ghost var target := Gathered(Walk(links, current, options), harvested);
      var i := 0;
      while current != null
        invariant Valid() && Links(rooms) == links
        invariant 0 <= i <= |options| + 1
        invariant current != null ==> i <= |options|
        invariant Gathered(Walk(links, current, Remaining(options, i)), harvested) == target
        invariant fresh(clueNodes - old(clueNodes))
        decreases |options| + 1 - i
      {
        Round(options, i, links);
        i := i + 1;
      }
    }

    /** One round of `explorarSalas` with the options read so far numbering
        `i`: the turn taken on the next option, or on `s` when none is left.
        What is still to be gathered along the rest of the walk is unchanged
        by the round, and only `s` or the end of the options leaves the
        mansion. */
    method Round(options: seq<char>, i: int, ghost links: map<Room, Exits>)
      requires Valid() && current != null && 0 <= i <= |options|
      requires Links(rooms) == links
      modifies this, rooms`collected, clueNodes
      ensures Valid() && Links(rooms) == links
      ensures current != null ==> i < |options|
      ensures Gathered(Walk(links, current, Remaining(options, i + 1)), harvested)
              == old(Gathered(Walk(links, current, Remaining(options, i)), harvested))
      ensures forall r :: r in rooms && old(r.collected) ==> r.collected
      ensures fresh(clueNodes - old(clueNodes))
    {
      var option := if i < |options| then options[i] else 's';
      ghost var here, h := current, harvested;
      ghost var next := Follow(links[here], here, ToLower(option));
      ghost var rest := Walk(links, next, Remaining(options, i + 1));
      assert Walk(links, here, Remaining(options, i)) == [here] + rest by {
        if i < |options| {
          assert Remaining(options, i)[1..] == Remaining(options, i + 1);
        }
      }
      GatheredAppend([here], rest, h);
      var _, _ := Turn(option);
      assert current == next;
    }

    /** The verdict of `verificarSuspeitoFinal` for an accused name: the
        number of distinct collected clues whose registered suspect is the
        accused, and guilty exactly when that number reaches `MinimumClues`. */
    method Accuse(accused: string) returns (support: nat, ruling: Ruling)
      requires Valid()
      ensures support == |Supporting(ModelOf(clues), suspects.buckets[..], accused)|
      ensures ruling == Guilty <==> support >= MinimumClues
    {
      support := CountSupport(clues, suspects, accused);
      SupportCountIsDistinctClues(ModelOf(clues), suspects.buckets[..], accused);
      ruling := Verdict(support);
    }

    /** The collected clues as `exibirPistas` lists them: strictly ascending,
        each collected clue exactly once. */
    method CollectedClues() returns (listing: seq<string>)
      requires Valid()
      ensures StrictlyIncreasing(listing)
      ensures forall c :: c in listing <==> exists i :: 0 <= i < |harvested| && harvested[i].clue == c
    {
      listing := ListClues(clues);
      InOrderIsSortedListing(ModelOf(clues));
      CluesOfListsClues(harvested);
    }
  }
}

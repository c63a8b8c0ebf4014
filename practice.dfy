/** The click-to-spell mini-game of the practice panel.

    The panel holds a fixed list of three words. For the current word the
    letters are dealt, shuffled, into a pool of tiles; clicking a tile moves it
    into the first empty answer slot, clicking a filled slot sends its tile back
    to the end of the pool. Checking compares the assembled letters with the
    word, case-insensitively, and keeps a lives counter and a streak counter.

    The component's state hooks become the fields of the class PracticePanel.
    React replaces arrays instead of mutating them, so the pool and the slots
    are sequence fields that each handler reassigns. */
module Practice {
  import opened Wrappers

  /** Lives a session starts with. */
  const MaxLives := 3

  /** A letter tile. Its id is the index of its letter in the word: the
      index replaces the component's word-id prefix and random suffix, which
      add nothing to the uniqueness the index already gives within a word. */
  datatype Tile = Tile(id: nat, letter: char)

  /** The outcome tag the panel shows. */
  datatype PracticeResult = Idle | Correct | Wrong | Completed | Incomplete

  /** An answer slot: a tile or nothing. */
  type Slot = Option<Tile>

  /** The words of `demoWords`. Their ids, definitions and hints are display
      text only: tile ids are the letter index, so no word id is needed. */
  const DemoWords: seq<string> := ["focus", "resilient", "orbit"]

  // ---------------------------------------------------------------------------
  // Tiles and slots as values
  // ---------------------------------------------------------------------------

  /** The letters of a row of tiles, in order. */
  function Letters(ts: seq<Tile>): (r: string)
    ensures |r| == |ts|
  {
    seq(|ts|, i requires 0 <= i < |ts| => ts[i].letter)
  }

  lemma LettersAppend(a: seq<Tile>, b: seq<Tile>)
    ensures Letters(a + b) == Letters(a) + Letters(b)
  {
  }

  /** `createTiles`: one tile per letter of the word, ids 0, 1, 2, ... */
  function CreateTiles(word: string): seq<Tile> {
    seq(|word|, i requires 0 <= i < |word| => Tile(i, word[i]))
  }

  /** The created tiles spell the word and carry pairwise distinct ids. */
  lemma CreateTilesSpec(word: string)
    ensures Letters(CreateTiles(word)) == word
    ensures var ts := CreateTiles(word);
            forall i, j :: 0 <= i < j < |ts| ==> ts[i].id != ts[j].id
  {
  }

  /** Every tile of a word occurs once among its created tiles, and no other
      tile occurs at all. */
  lemma {:induction false} CreateTilesCount(word: string, u: Tile)
    ensures multiset(CreateTiles(word))[u] ==
            if u.id < |word| && u.letter == word[u.id] then 1 else 0
  {
    if word != [] {
      var n := |word| - 1;
      var prefix := word[..n];
      assert CreateTiles(word) == CreateTiles(prefix) + [Tile(n, word[n])];
      CreateTilesCount(prefix, u);
    }
  }

  /** `Array(n).fill(null)`: n empty slots. */
  function EmptySlots(n: nat): (r: seq<Slot>)
    ensures |r| == n
    ensures forall i :: 0 <= i < n ==> r[i].None?
  {
    seq(n, _ => None)
  }

  predicate AllFilled(slots: seq<Slot>) {
    forall i :: 0 <= i < |slots| ==> slots[i].Some?
  }

  function SlotTiles(slot: Slot): seq<Tile> {
    match slot
    case Some(t) => [t]
    case None => []
  }

  /** The tiles sitting in the slots, left to right. */
  function Placed(slots: seq<Slot>): (r: seq<Tile>)
  {
    if slots == [] then [] else SlotTiles(slots[0]) + Placed(slots[1..])
  }

  /** A full row of slots places one tile per slot. */
  lemma {:induction false} PlacedOfFullSlots(slots: seq<Slot>)
    requires AllFilled(slots)
    ensures |Placed(slots)| == |slots|
  {
    if slots != [] {
      PlacedOfFullSlots(slots[1..]);
    }
  }

  lemma {:induction false} PlacedOfEmptySlots(n: nat)
    ensures Placed(EmptySlots(n)) == []
  {
    if n > 0 {
      assert EmptySlots(n)[1..] == EmptySlots(n - 1);
      PlacedOfEmptySlots(n - 1);
    }
  }

  lemma {:induction false} PlacedAppend(a: seq<Slot>, b: seq<Slot>)
    ensures Placed(a + b) == Placed(a) + Placed(b)
  {
    if a == [] {
      assert a + b == b;
    } else {
      assert (a + b)[0] == a[0] && (a + b)[1..] == a[1..] + b;
      PlacedAppend(a[1..], b);
      calc {
        Placed(a + b);
        SlotTiles(a[0]) + Placed(a[1..] + b);
        SlotTiles(a[0]) + (Placed(a[1..]) + Placed(b));
        (SlotTiles(a[0]) + Placed(a[1..])) + Placed(b);
      }
    }
  }

  lemma PlacedSplice(pre: seq<Slot>, x: Slot, post: seq<Slot>)
    ensures Placed(pre + [x] + post) == Placed(pre) + SlotTiles(x) + Placed(post)
  {
    PlacedAppend(pre + [x], post);
    PlacedAppend(pre, [x]);
    assert [x][1..] == [];
    assert Placed([x]) == SlotTiles(x) + [];
  }

  /** Replacing slot k changes the placed tiles by exactly the tile that left
      and the tile that arrived. */
  lemma PlacedUpdate(slots: seq<Slot>, k: nat, v: Slot)
    requires k < |slots|
    ensures multiset(Placed(slots[k := v])) + multiset(SlotTiles(slots[k]))
         == multiset(Placed(slots)) + multiset(SlotTiles(v))
  {
    var pre, post := slots[..k], slots[k + 1..];
    assert slots == pre + [slots[k]] + post;
    assert slots[k := v] == pre + [v] + post;
    PlacedSplice(pre, slots[k], post);
    PlacedSplice(pre, v, post);
    var p, q := multiset(Placed(pre)), multiset(Placed(post));
    var gone, come := multiset(SlotTiles(slots[k])), multiset(SlotTiles(v));
    assert multiset(Placed(slots[k := v])) == p + come + q;
    assert multiset(Placed(slots)) == p + gone + q;
  }

  /** `slots.map(slot => slot?.letter ?? "").join("")`. */
  function Assembled(slots: seq<Slot>): string {
    if slots == [] then []
    else (match slots[0] case Some(t) => [t.letter] case None => []) + Assembled(slots[1..])
  }

  /** The assembled answer is the letters of the placed tiles, in slot order. */
  lemma {:induction false} AssembledIsPlacedLetters(slots: seq<Slot>)
    ensures Assembled(slots) == Letters(Placed(slots))
  {
    if slots != [] {
      AssembledIsPlacedLetters(slots[1..]);
      LettersAppend(SlotTiles(slots[0]), Placed(slots[1..]));
    }
  }

  /** `String.prototype.toLowerCase` on the ASCII letters; every other
      character is left as it is. */
  function LowerChar(c: char): (r: char)
    ensures 'A' <= c <= 'Z' ==> 'a' <= r <= 'z' && r as int - c as int == 32
    ensures !('A' <= c <= 'Z') ==> r == c
  {
    if 'A' <= c <= 'Z' then (c as int + 32) as char else c
  }

  function LowerCase(s: string): (r: string)
    ensures |r| == |s|
  {
    seq(|s|, i requires 0 <= i < |s| => LowerChar(s[i]))
  }

  // ---------------------------------------------------------------------------
  // The pool operations behind the handlers
  // ---------------------------------------------------------------------------

  /** `tiles.find(t => t.id === tileId)`. */
  function FindTile(pool: seq<Tile>, id: nat): (r: Option<Tile>)
    ensures r.Some? ==> r.value in pool && r.value.id == id
  {
    if pool == [] then None
    else if pool[0].id == id then Some(pool[0])
    else FindTile(pool[1..], id)
  }

  /** A tile is found exactly when the pool holds one with that id, and the
      one found is the first such tile. */
  lemma {:induction false} FindTileSpec(pool: seq<Tile>, id: nat)
    ensures FindTile(pool, id).None? <==> forall t :: t in pool ==> t.id != id
    ensures FindTile(pool, id).Some? ==>
              exists k :: 0 <= k < |pool| && pool[k] == FindTile(pool, id).value &&
                          forall j :: 0 <= j < k ==> pool[j].id != id
  {
    if pool != [] && pool[0].id != id {
      FindTileSpec(pool[1..], id);
      assert pool == [pool[0]] + pool[1..];
      if FindTile(pool, id).Some? {
        var k :| 0 <= k < |pool[1..]| && pool[1..][k] == FindTile(pool, id).value &&
                 forall j :: 0 <= j < k ==> pool[1..][j].id != id;
        assert pool[k + 1] == FindTile(pool, id).value;
        assert forall j :: 0 <= j < k + 1 ==> pool[j].id != id by {
          forall j | 0 <= j < k + 1
            ensures pool[j].id != id
          {
            if j > 0 {
              assert pool[j] == pool[1..][j - 1];
            }
          }
        }
      }
    }
  }

  /** `tiles.filter(t => t.id !== id)`: every tile with that id leaves the
      pool, every other tile stays as often as it was there. */
  function RemoveTile(pool: seq<Tile>, id: nat): seq<Tile> {
    if pool == [] then []
    else (if pool[0].id == id then [] else [pool[0]]) + RemoveTile(pool[1..], id)
  }

  lemma {:induction false} RemoveTileCount(pool: seq<Tile>, id: nat)
    ensures forall u :: multiset(RemoveTile(pool, id))[u] == if u.id == id then 0 else multiset(pool)[u]
  {
    if pool != [] {
      assert pool == [pool[0]] + pool[1..];
      RemoveTileCount(pool[1..], id);
    }
  }

  /** `slots.findIndex(slot => slot === null)`: the lowest empty slot, or
      nothing when every slot is filled. */
  function FirstEmpty(slots: seq<Slot>): (r: Option<nat>)
    ensures r.Some? ==> r.value < |slots| && slots[r.value].None?
  {
    if slots == [] then None
    else if slots[0].None? then Some(0)
    else match FirstEmpty(slots[1..])
      case None => None
      case Some(k) => Some(k + 1)
  }

  /** There is no empty slot exactly when all are filled, and the one found
      has only filled slots before it. */
  lemma {:induction false} FirstEmptySpec(slots: seq<Slot>)
    ensures FirstEmpty(slots).None? <==> AllFilled(slots)
    ensures FirstEmpty(slots).Some? ==> forall j :: 0 <= j < FirstEmpty(slots).value ==> slots[j].Some?
  {
    if slots != [] && slots[0].Some? {
      FirstEmptySpec(slots[1..]);
      assert forall j :: 1 <= j < |slots| ==> slots[j] == slots[1..][j - 1];
    }
  }

  /** `shuffle`: Fisher-Yates on a copy of the items. The random index drawn
      at each step is any index in [0, i]; all the component relies on is
      that the result is a rearrangement of the input, which is left as it
      was because only the copy is touched. */
  method Shuffle<T>(items: seq<T>) returns (r: seq<T>)
    ensures |r| == |items|
    ensures multiset(r) == multiset(items)
  {
    var copy := new T[|items|](i requires 0 <= i < |items| => items[i]);
    assert copy[..] == items;
    var i := copy.Length - 1;
    while i > 0
      invariant -1 <= i < copy.Length
      invariant multiset(copy[..]) == multiset(items)
    {
      var j :| 0 <= j <= i;
      ghost var before := copy[..];
      copy[i], copy[j] := copy[j], copy[i];
      SwapPermutes(before, i, j);
      assert copy[..] == before[i := before[j]][j := before[i]];
      i := i - 1;
    }
    r := copy[..];
  }

  /** Swapping two elements keeps the multiset. */
  lemma SwapPermutes<T>(s: seq<T>, i: nat, j: nat)
    requires i < |s| && j < |s|
    ensures multiset(s[i := s[j]][j := s[i]]) == multiset(s)
  {
  }

  // ---------------------------------------------------------------------------
  // The conserved quantity: pool plus filled slots hold exactly the word's tiles
  // ---------------------------------------------------------------------------

  /** The board invariant: as many slots as letters, and the pool together
      with the filled slots holds each tile of the word exactly once. */
  ghost predicate Conserved(pool: seq<Tile>, slots: seq<Slot>, word: string) {
    |slots| == |word| &&
    multiset(pool) + multiset(Placed(slots)) == multiset(CreateTiles(word))
  }

  /** A freshly dealt board keeps the invariant. */
  lemma InitialBoardConserved(pool: seq<Tile>, word: string)
    requires multiset(pool) == multiset(CreateTiles(word))
    ensures Conserved(pool, EmptySlots(|word|), word)
  {
    PlacedOfEmptySlots(|word|);
  }

  /** Ids are unique on a conserved board, so filtering the clicked tile's id
      out of the pool removes that one tile and nothing else. */
  lemma TakeTile(pool: seq<Tile>, slots: seq<Slot>, word: string, id: nat, t: Tile)
    requires Conserved(pool, slots, word)
    requires t in pool && t.id == id
    ensures multiset(RemoveTile(pool, id)) + multiset{t} == multiset(pool)
  {
    var rest := RemoveTile(pool, id);
    RemoveTileCount(pool, id);
    CreateTilesCount(word, t);
    forall u
      ensures multiset(rest)[u] + multiset{t}[u] == multiset(pool)[u]
    {
      CreateTilesCount(word, u);
    }
  }

  /** `fillNextSlot` moves exactly the clicked tile from the pool into the
      lowest empty slot, and so keeps the invariant. */
  lemma FillConserves(pool: seq<Tile>, slots: seq<Slot>, word: string, id: nat, t: Tile, k: nat)
    requires Conserved(pool, slots, word)
    requires FindTile(pool, id) == Some(t) && FirstEmpty(slots) == Some(k)
    ensures Conserved(RemoveTile(pool, id), slots[k := Some(t)], word)
  {
    var rest := RemoveTile(pool, id);
    TakeTile(pool, slots, word, id, t);
    var filled := slots[k := Some(t)];
    PlacedUpdate(slots, k, Some(t));
    assert SlotTiles(slots[k]) == [] && SlotTiles(Some(t)) == [t];
    assert multiset(Placed(filled)) == multiset(Placed(slots)) + multiset{t};
    calc {
      multiset(rest) + multiset(Placed(filled));
      multiset(rest) + (multiset(Placed(slots)) + multiset{t});
      (multiset(rest) + multiset{t}) + multiset(Placed(slots));
      multiset(pool) + multiset(Placed(slots));
    }
  }

  /** `clearSlot` moves the slot's tile to the end of the pool, and so keeps
      the invariant. */
  lemma ClearConserves(pool: seq<Tile>, slots: seq<Slot>, word: string, k: nat)
    requires Conserved(pool, slots, word)
    requires k < |slots| && slots[k].Some?
    ensures Conserved(pool + [slots[k].value], slots[k := None], word)
  {
    var t := slots[k].value;
    var cleared := slots[k := None];
    PlacedUpdate(slots, k, None);
    assert SlotTiles(slots[k]) == [t] && SlotTiles(None) == [];
    assert multiset(Placed(cleared)) + multiset{t} == multiset(Placed(slots));
    calc {
      multiset(pool + [t]) + multiset(Placed(cleared));
      (multiset(pool) + multiset{t}) + multiset(Placed(cleared));
      multiset(pool) + (multiset(Placed(cleared)) + multiset{t});
      multiset(pool) + multiset(Placed(slots));
    }
  }

  /** Letter form of the invariant: the pool letters and the assembled
      letters together are the word's letters. */
  lemma ConservedLetters(pool: seq<Tile>, slots: seq<Slot>, word: string)
    requires Conserved(pool, slots, word)
    ensures multiset(Letters(pool)) + multiset(Assembled(slots)) == multiset(word)
  {
    AssembledIsPlacedLetters(slots);
    CreateTilesSpec(word);
    LettersPermutation(pool + Placed(slots), CreateTiles(word));
    LettersAppend(pool, Placed(slots));
  }

  /** Under the invariant no two tiles on the board share an id. */
  lemma ConservedDistinctIds(pool: seq<Tile>, slots: seq<Slot>, word: string)
    requires Conserved(pool, slots, word)
    ensures var held := pool + Placed(slots);
            forall i, j :: 0 <= i < j < |held| ==> held[i].id != held[j].id
  {
    var held := pool + Placed(slots);
    forall i, j | 0 <= i < j < |held|
      ensures held[i].id != held[j].id
    {
      var x, y := held[i], held[j];
      assert multiset(held) == multiset(CreateTiles(word));
      assert held == held[..j] + held[j..];
      assert multiset(held) == multiset(held[..j]) + multiset(held[j..]);
      assert x in multiset(held[..j]) && y in multiset(held[j..]);
      CreateTilesCount(word, x);
      CreateTilesCount(word, y);
      assert x.id == y.id ==> x == y;
      assert x == y ==> multiset(held)[x] >= 2;
    }
  }

  /** When every slot is filled the pool is empty and the assembled answer is
      a rearrangement of the word. */
  lemma CompleteBoard(pool: seq<Tile>, slots: seq<Slot>, word: string)
    requires Conserved(pool, slots, word) && AllFilled(slots)
    ensures pool == []
    ensures |Assembled(slots)| == |word|
    ensures multiset(Assembled(slots)) == multiset(word)
  {
    PlacedOfFullSlots(slots);
    assert |multiset(pool)| + |multiset(Placed(slots))| == |multiset(CreateTiles(word))|;
    ConservedLetters(pool, slots, word);
    AssembledIsPlacedLetters(slots);
  }

  /** For a word already in lower case the case-insensitive comparison of a
      full board is plain equality. */
  lemma CheckIsExact(pool: seq<Tile>, slots: seq<Slot>, word: string)
    requires Conserved(pool, slots, word) && AllFilled(slots)
    requires LowerCase(word) == word
    ensures LowerCase(Assembled(slots)) == LowerCase(word) <==> Assembled(slots) == word
  {
    var a := Assembled(slots);
    CompleteBoard(pool, slots, word);
    forall i | 0 <= i < |a|
      ensures LowerCase(a)[i] == a[i]
    {
      assert a[i] in multiset(word);
      var k :| 0 <= k < |word| && word[k] == a[i];
      assert LowerCase(word)[k] == word[k];
    }
  }

  lemma LettersSplice(pre: seq<Tile>, x: Tile, post: seq<Tile>)
    ensures multiset(Letters(pre + [x] + post)) == multiset(Letters(pre + post)) + multiset{x.letter}
  {
    LettersAppend(pre, [x]);
    LettersAppend(pre + [x], post);
    LettersAppend(pre, post);
    assert Letters([x]) == [x.letter];
  }

  lemma MultisetCancel<T>(a: multiset<T>, b: multiset<T>, x: T)
    requires a + multiset{x} == b + multiset{x}
    ensures a == b
  {
    forall o
      ensures a[o] == b[o]
    {
      assert (a + multiset{x})[o] == (b + multiset{x})[o];
    }
  }

  /** Taking the same element out of two rearrangements of each other
      leaves rearrangements of each other. */
  lemma RemoveMatching<T>(a: seq<T>, b: seq<T>, i: nat)
    requires multiset(a) == multiset(b) && a != [] && i < |b| && b[i] == a[0]
    ensures multiset(a[1..]) == multiset(b[..i] + b[i + 1..])
  {
    var x, pre, post := a[0], b[..i], b[i + 1..];
    assert b == pre + [x] + post;
    assert a == [x] + a[1..];
    calc {
      multiset(a[1..]) + multiset{x};
      multiset(a);
      multiset(b);
      multiset(pre) + multiset{x} + multiset(post);
      multiset(pre + post) + multiset{x};
    }
    MultisetCancel(multiset(a[1..]), multiset(pre + post), x);
  }

  /** Rearranging tiles rearranges their letters. */
  lemma {:induction false} LettersPermutation(a: seq<Tile>, b: seq<Tile>)
    requires multiset(a) == multiset(b)
    ensures multiset(Letters(a)) == multiset(Letters(b))
  {
    if a == [] {
      assert |multiset(b)| == 0;
    } else {
      var x := a[0];
      assert x in multiset(b);
      var i :| 0 <= i < |b| && b[i] == x;
      var pre, post := b[..i], b[i + 1..];
      RemoveMatching(a, b, i);
      LettersPermutation(a[1..], pre + post);
      assert a == [x] + a[1..];
      assert b == pre + [x] + post;
      LettersAppend([x], a[1..]);
      assert Letters([x]) == [x.letter];
      assert multiset(Letters(a)) == multiset{x.letter} + multiset(Letters(a[1..]));
      LettersSplice(pre, x, post);
    }
  }

  // ---------------------------------------------------------------------------
  // The panel
  // ---------------------------------------------------------------------------

  /** The practice panel while it is shown. */
  class PracticePanel {
    var step: nat
    var tiles: seq<Tile>
    var slots: seq<Slot>
    var result: PracticeResult
    var lives: int
    var streak: nat

    /** The step indexes a word, lives stay in [0, MaxLives], and the board
        holds exactly the current word's tiles. */
    ghost predicate Valid()
      reads this
    {
      step < |DemoWords| && 0 <= lives <= MaxLives &&
      Conserved(tiles, slots, DemoWords[step])
    }

    /** Valid, and the panel is in a state the handlers can reach: the lives
        run out only through a wrong answer, so a panel with no lives left
        shows `wrong`. */
    ghost predicate SessionValid()
      reads this
    {
      Valid() && (lives == 0 ==> result == Wrong)
    }

    function CurrentWord(): string
      reads this
      requires step < |DemoWords|
    {
      DemoWords[step]
    }

    /** `locked`: the session is over, or no lives are left. */
    predicate Locked()
      reads this
    {
      result == Completed || lives <= 0
    }

    /** `canGoNext`. */
    predicate CanGoNext()
      reads this
    {
      step < |DemoWords| - 1 && result == Correct
    }

    /** A board as `initializeBoard` deals it: a rearrangement of the current
        word's tiles in the pool, every slot empty, no verdict. */
    ghost predicate FreshBoard()
      reads this
      requires step < |DemoWords|
    {
      multiset(tiles) == multiset(CreateTiles(CurrentWord())) &&
      slots == EmptySlots(|CurrentWord()|) &&
      result == Idle
    }

    /** What `fillNextSlot(tileId)` does. */
    twostate predicate FilledNext(tileId: nat)
      reads this
    {
      var found, next := FindTile(old(tiles), tileId), FirstEmpty(old(slots));
      step == old(step) && lives == old(lives) && streak == old(streak) &&
      if found.Some? && next.Some? then
        slots == old(slots)[next.value := found] && tiles == RemoveTile(old(tiles), tileId) &&
        result == Idle
      else
        tiles == old(tiles) && slots == old(slots) && result == old(result)
    }

    /** What `clearSlot(slotIndex)` does. */
    twostate predicate ClearedSlot(slotIndex: int)
      reads this
    {
      step == old(step) && lives == old(lives) && streak == old(streak) &&
      if 0 <= slotIndex < |old(slots)| && old(slots)[slotIndex].Some? then
        slots == old(slots)[slotIndex := None] &&
        tiles == old(tiles) + [old(slots)[slotIndex].value] && result == Idle
      else
        tiles == old(tiles) && slots == old(slots) && result == old(result)
    }

    /** Mounting the panel while it is active: the activation reset, then the
        first word's board. */
    constructor ()
      ensures SessionValid() && step == 0 && lives == MaxLives && streak == 0 && FreshBoard()
    {
      step, tiles, slots, result, lives, streak := 0, [], [], Idle, MaxLives, 0;
      new;
      Activate();
    }

    /** `initializeBoard` for a current word that exists. */
    method InitializeBoard()
      requires step < |DemoWords| && 0 <= lives <= MaxLives
      modifies this
      ensures Valid() && FreshBoard()
      ensures step == old(step) && lives == old(lives) && streak == old(streak)
    {
      var word := DemoWords[step];
      var baseTiles := CreateTiles(word);
      tiles := Shuffle(baseTiles);
      slots := EmptySlots(|baseTiles|);
      result := Idle;
      InitialBoardConserved(tiles, word);
    }

    /** Becoming active: back to the first word with full lives and no
        streak, and a freshly dealt board (the reset effect followed by the
        board effect it triggers). */
    method Activate()
      modifies this
      ensures SessionValid() && step == 0 && lives == MaxLives && streak == 0 && FreshBoard()
    {
      step, lives, streak := 0, MaxLives, 0;
      InitializeBoard();
    }

    /** `fillNextSlot`: the clicked tile goes into the lowest empty slot. */
    method FillNextSlot(tileId: nat)
      requires Valid()
      modifies this
      ensures Valid()
      ensures FilledNext(tileId)
    {
      var tile, nextIndex := FindTile(tiles, tileId), FirstEmpty(slots);
      if tile.Some? && nextIndex.Some? {
        var newSlots, newTiles := slots[nextIndex.value := tile], RemoveTile(tiles, tileId);
        FillConserves(tiles, slots, CurrentWord(), tileId, tile.value, nextIndex.value);
        slots, tiles, result := newSlots, newTiles, Idle;
      }
    }

    /** `clearSlot`: a filled slot gives its tile back to the end of the pool. */
    method ClearSlot(slotIndex: int)
      requires Valid()
      modifies this
      ensures Valid() && ClearedSlot(slotIndex)
    {
      if !(0 <= slotIndex < |slots|) || slots[slotIndex].None? {
        return;
      }
      var tile := slots[slotIndex].value;
      var newSlots, newTiles := slots[slotIndex := None], tiles + [tile];
      ClearConserves(tiles, slots, CurrentWord(), slotIndex);
      slots, tiles, result := newSlots, newTiles, Idle;
    }

    /** `handleTileClick`. */
    method HandleTileClick(tileId: nat)
      requires SessionValid()
      modifies this
      ensures SessionValid()
      ensures old(Locked()) ==> unchanged(this)
      ensures !old(Locked()) ==> FilledNext(tileId)
    {
      if Locked() {
        return;
      }
      FillNextSlot(tileId);
    }

    /** `handleSlotClick`. */
    method HandleSlotClick(slotIndex: int)
      requires SessionValid()
      modifies this
      ensures SessionValid()
      ensures old(Locked()) ==> unchanged(this)
      ensures !old(Locked()) ==> ClearedSlot(slotIndex)
    {
      if Locked() {
        return;
      }
      ClearSlot(slotIndex);
    }

    /** `handleCheck`: an incomplete board is reported as such; a full one is
        compared with the word, ignoring case. */
    method HandleCheck()
      requires SessionValid()
      modifies this
      ensures SessionValid()
      ensures step == old(step) && tiles == old(tiles) && slots == old(slots)
      ensures old(Locked()) ==> unchanged(this)
      ensures !old(Locked()) && !AllFilled(slots) ==>
                result == Incomplete && lives == old(lives) && streak == old(streak)
      ensures !old(Locked()) && AllFilled(slots) &&
              LowerCase(Assembled(slots)) == LowerCase(CurrentWord()) ==>
                result == (if step == |DemoWords| - 1 then Completed else Correct) &&
                lives == old(lives) && streak == old(streak) + 1
      ensures !old(Locked()) && AllFilled(slots) &&
              LowerCase(Assembled(slots)) != LowerCase(CurrentWord()) ==>
                result == Wrong && lives == (if old(lives) - 1 > 0 then old(lives) - 1 else 0) &&
                streak == 0
    {
      if Locked() {
        return;
      }
      if !AllFilled(slots) {
        result := Incomplete;
        return;
      }
      var assembled := LowerCase(Assembled(slots));
      if assembled == LowerCase(CurrentWord()) {
        result := if step == |DemoWords| - 1 then Completed else Correct;
        streak := streak + 1;
      } else {
        result := Wrong;
        lives := if lives - 1 > 0 then lives - 1 else 0;
        streak := 0;
      }
    }

    /** `handleNext`: only after a correct answer that was not the last word;
        the new word's board is then dealt. */
    method HandleNext()
      requires SessionValid()
      modifies this
      ensures SessionValid()
      ensures !old(CanGoNext()) ==> unchanged(this)
      ensures old(Locked()) ==> unchanged(this)
      ensures old(CanGoNext()) ==>
                step == old(step) + 1 && lives == old(lives) && streak == old(streak) && FreshBoard()
    {
      if !CanGoNext() {
        return;
      }
      step := step + 1;
      InitializeBoard();
    }

    /** `handleResetBoard`: deal the current word again unless locked. */
    method HandleResetBoard()
      requires SessionValid()
      modifies this
      ensures SessionValid()
      ensures old(Locked()) ==> unchanged(this)
      ensures !old(Locked()) ==>
                step == old(step) && lives == old(lives) && streak == old(streak) && FreshBoard()
    {
      if Locked() {
        return;
      }
      InitializeBoard();
    }
  }
}

/** The contextual action table (mirro-rs/src/app/actions.rs): which key
    triggers which user intent, the check that a table binds every key at
    most once, and the lookup of the action for a pressed key. */
module ActionTable {
  import opened Common
  import opened AppStates

  /** A normalised key press. mirro-rs/src/inputs/key.rs is not part of this
      model; the named keys beyond those the core binds are listed so that
      "some other key" can be pressed, and none of them is bound. */
  datatype Key =
    | Enter | Tab | Backspace | Esc
    | Left | Right | Up | Down
    | Ins | Delete | Home | End | PageUp | PageDown
    | F(n: nat)
    | Char(c: char)
    | Ctrl(c: char)
    | Alt(c: char)
    | Unknown

  /** `Focus(SelectedCountries)`, `SimpleExport` and `RateExport` are used by
      mirro-rs/src/app/mod.rs; actions.rs at this revision neither binds keys
      to them nor lists them in `iterator()`. */
  datatype Action =
    | Quit
    | Sleep
    | Focus(widget: Widgets)
    | Action
    | SimpleExport
    | RateExport
  {
    /** `keys()`: the literal trigger list of the action. */
    function Keys(): seq<Key> {
      match this
      case Quit => [Ctrl('c')]
      case Sleep => [Ctrl('s')]
      case Focus(w) =>
        (match w
         case CountryFilter => [Ctrl('f')]
         case Protocols => [Ctrl('p')]
         case Mirrors => [Ctrl('a')]
         case SelectedCountries => [])
      case Action => LetterKeys() + [Char(' '), Up, Enter, Down, Backspace, Esc]
      case SimpleExport => []
      case RateExport => []
    }
  }

  /** `Char('a')` through `Char('z')`, in order. */
  function LetterKeys(): (ks: seq<Key>)
    ensures |ks| == 26
    ensures forall i :: 0 <= i < 26 ==> ks[i] == Char((97 + i) as char)
  {
    seq(26, i requires 0 <= i < 26 => Char((97 + i) as char))
  }

  /** `Action::iterator()`: the canonical order in which `find` tries actions. */
  function Iterator(): seq<Action> {
    [Quit, Sleep, Focus(CountryFilter), Focus(Protocols), Focus(Mirrors), Action]
  }

  /** The live table for one context; built only through `From`. */
  datatype Actions = Actions(list: seq<Action>)
  {
    /** `find`: the first action of `Iterator()` that is in the table and is
        triggered by `k`. */
    function Find(k: Key): (r: Option<Action>)
      ensures r.Some? ==> r.value in Iterator() && Owns(this, r.value, k)
      ensures r.Some? ==> exists i :: 0 <= i < |Iterator()| && Iterator()[i] == r.value &&
                            forall j :: 0 <= j < i ==> !Owns(this, Iterator()[j], k)
      ensures r.None? ==> forall a :: a in Iterator() ==> !Owns(this, a, k)
    {
      FirstMatch(Iterator(), this, k)
    }
  }

  predicate Owns(table: Actions, a: Action, k: Key) {
    a in table.list && k in a.Keys()
  }

  function FirstMatch(cands: seq<Action>, table: Actions, k: Key): (r: Option<Action>)
    ensures r.Some? ==> exists i :: 0 <= i < |cands| && cands[i] == r.value && Owns(table, cands[i], k) &&
                          forall j :: 0 <= j < i ==> !Owns(table, cands[j], k)
    ensures r.None? ==> forall j :: 0 <= j < |cands| ==> !Owns(table, cands[j], k)
  {
    if cands == [] then None
    else if Owns(table, cands[0], k) then Some(cands[0])
    else
      var r := FirstMatch(cands[1..], table, k);
      assert forall j :: 1 <= j < |cands| ==> cands[j] == cands[1..][j - 1];
      r
  }

  // ---------------------------------------------------------------------
  // Key conflicts

  predicate SharesKey(a: Action, b: Action) {
    exists k :: k in a.Keys() && k in b.Keys()
  }

  /** Two entries of the list (two positions, possibly holding the same
      action) are triggered by a common key. */
  predicate HasClash(list: seq<Action>) {
    exists i, j :: 0 <= i < j < |list| && SharesKey(list[i], list[j])
  }

  /** The keys claimed by two entries of the list. */
  function ClashingKeys(list: seq<Action>): set<Key> {
    set i, j, k | 0 <= i < j < |list| && k in list[i].Keys() && k in list[j].Keys() :: k
  }

  /** The map that `from` fills: key to the actions claiming it, in order. */
  function Push(index: map<Key, seq<Action>>, k: Key, a: Action): map<Key, seq<Action>> {
    if k in index then index[k := index[k] + [a]] else index[k := [a]]
  }

  function AddKeys(index: map<Key, seq<Action>>, a: Action, ks: seq<Key>): map<Key, seq<Action>> {
    if ks == [] then index else Push(AddKeys(index, a, ks[..|ks| - 1]), ks[|ks| - 1], a)
  }

  function KeyIndex(list: seq<Action>): map<Key, seq<Action>> {
    if list == [] then map[]
    else
      var a := list[|list| - 1];
      AddKeys(KeyIndex(list[..|list| - 1]), a, a.Keys())
  }

  /** The entries of `list` that claim `k`, in list order. */
  function Owners(list: seq<Action>, k: Key): seq<Action> {
    if list == [] then []
    else
      var a := list[|list| - 1];
      Owners(list[..|list| - 1], k) + (if k in a.Keys() then [a] else [])
  }

  function Get(index: map<Key, seq<Action>>, k: Key): seq<Action> {
    if k in index then index[k] else []
  }

  /** `From<Vec<Action>> for Actions`: index every key of every entry, and
      refuse the list (the source panics) when some key is claimed twice; the
      refusal reports the clashing keys. */
  method From(list: seq<Action>) returns (r: Result<Actions, set<Key>>)
    ensures r.Ok? <==> !HasClash(list)
    ensures r.Ok? ==> r.value == Actions(list)
    ensures r.Err? ==> r.error == ClashingKeys(list) && r.error != {}
  {
    var index: map<Key, seq<Action>> := map[];
    var i := 0;
    while i < |list|
      invariant 0 <= i <= |list|
      invariant index == KeyIndex(list[..i])
    {
      var a := list[i];
      var ks := a.Keys();
      var j := 0;
      while j < |ks|
        invariant 0 <= j <= |ks|
        invariant index == AddKeys(KeyIndex(list[..i]), a, ks[..j])
      {
        var k := ks[j];
        if k in index {
          index := index[k := index[k] + [a]];
        } else {
          index := index[k := [a]];
        }
        assert ks[..j + 1][..j] == ks[..j];
        j := j + 1;
      }
      assert ks[..j] == ks;
      assert list[..i + 1][..i] == list[..i];
      i := i + 1;
    }
    assert list[..i] == list;
    var errors := set k | k in index && |index[k]| > 1;
    ErrorsAreClashingKeys(list);
    if errors != {} {
      return Err(errors);
    }
    return Ok(Actions(list));
  }

  // ---------------------------------------------------------------------
  // Lemmas about the key lists

  /** The generic `Action` owns exactly the lower-case letters, space and
      five named keys; no upper-case letter and no `Ctrl` chord. */
  lemma ActionOwns(k: Key)
    ensures k in Action.Action.Keys() <==>
              (k.Char? && ('a' <= k.c <= 'z' || k.c == ' ')) ||
              k == Up || k == Enter || k == Down || k == Backspace || k == Esc
  {
    var letters := LetterKeys();
    if k.Char? && 'a' <= k.c <= 'z' {
      var i := k.c as int - 97;
      assert letters[i] == k;
    }
    if k in letters {
      var i :| 0 <= i < 26 && letters[i] == k;
      assert k.Char? && 'a' <= k.c <= 'z';
    }
  }

  /** No key appears twice in one action's own list. */
  lemma KeysDistinct(a: Action)
    ensures forall p, q :: 0 <= p < q < |a.Keys()| ==> a.Keys()[p] != a.Keys()[q]
  {
    if a == Action {
      var ks := a.Keys();
      forall p, q | 0 <= p < q < |ks| ensures ks[p] != ks[q] {
        if q < 26 {
          assert ks[p] == Char((97 + p) as char) && ks[q] == Char((97 + q) as char);
        } else if p < 26 {
          assert ks[p] == Char((97 + p) as char);
        }
      }
    }
  }

  /** The one action whose list holds `k`, read off the literal lists. */
  function KeyOwner(k: Key): Option<Action> {
    if k == Ctrl('c') then Some(Quit)
    else if k == Ctrl('s') then Some(Sleep)
    else if k == Ctrl('f') then Some(Focus(CountryFilter))
    else if k == Ctrl('p') then Some(Focus(Protocols))
    else if k == Ctrl('a') then Some(Focus(Mirrors))
    else if k in Action.Action.Keys() then Some(Action)
    else None
  }

  /** Every key an action lists names that action as its owner. */
  lemma KeyOwnerIsUnique(a: Action, k: Key)
    requires k in a.Keys()
    ensures KeyOwner(k) == Some(a)
  {
    if a == Action {
      ActionOwns(k);
    }
  }

  /** Two different actions never share a key. */
  lemma DisjointKeys(a: Action, b: Action)
    requires a != b
    ensures !SharesKey(a, b)
  {
    if SharesKey(a, b) {
      var k :| k in a.Keys() && k in b.Keys();
      KeyOwnerIsUnique(a, k);
      KeyOwnerIsUnique(b, k);
    }
  }

  /** With distinct actions owning disjoint keys, a list clashes exactly when
      it names some keyed action twice. */
  lemma ClashIffRepeatedAction(list: seq<Action>)
    ensures HasClash(list) <==>
              exists i, j :: 0 <= i < j < |list| && list[i] == list[j] && list[i].Keys() != []
  {
    if HasClash(list) {
      var i, j :| 0 <= i < j < |list| && SharesKey(list[i], list[j]);
      if list[i] != list[j] {
        DisjointKeys(list[i], list[j]);
      }
      var k :| k in list[i].Keys() && k in list[j].Keys();
      assert list[i] == list[j] && list[i].Keys() != [];
    }
    if exists i, j :: 0 <= i < j < |list| && list[i] == list[j] && list[i].Keys() != [] {
      var i, j :| 0 <= i < j < |list| && list[i] == list[j] && list[i].Keys() != [];
      assert list[i].Keys()[0] in list[i].Keys();
      assert SharesKey(list[i], list[j]);
    }
  }

  /** Any list of distinct actions builds without a clash; in particular every
      repetition-free selection of the six iterator actions does. */
  lemma DistinctActionsNeverClash(list: seq<Action>)
    requires forall i, j :: 0 <= i < j < |list| ==> list[i] != list[j]
    ensures !HasClash(list)
  {
    ClashIffRepeatedAction(list);
  }

  // ---------------------------------------------------------------------
  // Lemmas connecting the index built by `From` to the clash predicate

  lemma AddKeysGet(index: map<Key, seq<Action>>, a: Action, ks: seq<Key>, k: Key)
    requires forall p, q :: 0 <= p < q < |ks| ==> ks[p] != ks[q]
    ensures k in AddKeys(index, a, ks) <==> k in index || k in ks
    ensures Get(AddKeys(index, a, ks), k) == Get(index, k) + (if k in ks then [a] else [])
    decreases |ks|
  {
    if ks != [] {
      var init := ks[..|ks| - 1];
      var last := ks[|ks| - 1];
      assert ks == init + [last];
      DropLastDistinct(init, last);
      AddKeysGet(index, a, init, k);
      PushGet(AddKeys(index, a, init), last, a, k);
    }
  }

  /** Dropping the last key of a repetition-free list keeps it free of
      repetitions, and the dropped key is not among the rest. */
  lemma DropLastDistinct(init: seq<Key>, last: Key)
    requires forall p, q :: 0 <= p < q < |init + [last]| ==> (init + [last])[p] != (init + [last])[q]
    ensures forall p, q :: 0 <= p < q < |init| ==> init[p] != init[q]
    ensures last !in init
  {
    var ks := init + [last];
    forall p, q | 0 <= p < q < |init| ensures init[p] != init[q] {
      assert init[p] == ks[p] && init[q] == ks[q];
    }
    forall p | 0 <= p < |init| ensures init[p] != last {
      assert init[p] == ks[p] && last == ks[|init|];
    }
  }

  /** One `push` under key `pushed` extends that key's vector only. */
  lemma PushGet(index: map<Key, seq<Action>>, pushed: Key, a: Action, k: Key)
    ensures k in Push(index, pushed, a) <==> k in index || k == pushed
    ensures Get(Push(index, pushed, a), k) == Get(index, k) + (if k == pushed then [a] else [])
  {
  }

  lemma KeyIndexOwners(list: seq<Action>, k: Key)
    ensures Get(KeyIndex(list), k) == Owners(list, k)
    ensures k in KeyIndex(list) <==> |Owners(list, k)| > 0
    decreases |list|
  {
    if list != [] {
      var a := list[|list| - 1];
      KeyIndexOwners(list[..|list| - 1], k);
      KeysDistinct(a);
      AddKeysGet(KeyIndex(list[..|list| - 1]), a, a.Keys(), k);
    }
  }

  /** Which entries of `list` claim `k`. */
  function Claims(list: seq<Action>, k: Key): (bs: seq<bool>)
    ensures |bs| == |list|
    ensures forall i :: 0 <= i < |list| ==> bs[i] == (k in list[i].Keys())
  {
    seq(|list|, i requires 0 <= i < |list| => k in list[i].Keys())
  }

  function CountTrue(bs: seq<bool>): nat {
    if bs == [] then 0 else CountTrue(bs[..|bs| - 1]) + (if bs[|bs| - 1] then 1 else 0)
  }

  lemma {:induction false} OwnersAreCounted(list: seq<Action>, k: Key)
    ensures |Owners(list, k)| == CountTrue(Claims(list, k))
    decreases |list|
  {
    if list != [] {
      var n := |list| - 1;
      OwnersAreCounted(list[..n], k);
      assert Claims(list, k)[..n] == Claims(list[..n], k);
    }
  }

  lemma {:induction false} CountTrueAtLeastOne(bs: seq<bool>)
    ensures CountTrue(bs) >= 1 <==> exists i :: 0 <= i < |bs| && bs[i]
    decreases |bs|
  {
    if bs != [] {
      var n := |bs| - 1;
      CountTrueAtLeastOne(bs[..n]);
      if exists i :: 0 <= i < |bs| && bs[i] {
        var i :| 0 <= i < |bs| && bs[i];
        if i < n {
          assert bs[..n][i];
        }
      }
      if exists i :: 0 <= i < n && bs[..n][i] {
        var i :| 0 <= i < n && bs[..n][i];
        assert bs[i];
      }
    }
  }

  lemma {:induction false} CountTrueAtLeastTwo(bs: seq<bool>)
    ensures CountTrue(bs) >= 2 <==> exists i, j :: 0 <= i < j < |bs| && bs[i] && bs[j]
    decreases |bs|
  {
    if bs != [] {
      var n := |bs| - 1;
      var init := bs[..n];
      CountTrueAtLeastTwo(init);
      CountTrueAtLeastOne(init);
      if exists i, j :: 0 <= i < j < n && init[i] && init[j] {
        var i, j :| 0 <= i < j < n && init[i] && init[j];
        assert bs[i] && bs[j];
      }
      if exists i, j :: 0 <= i < j < |bs| && bs[i] && bs[j] {
        var i, j :| 0 <= i < j < |bs| && bs[i] && bs[j];
        assert init[i];
        if j < n {
          assert init[j];
        }
      }
      if bs[n] && exists i :: 0 <= i < n && init[i] {
        var i :| 0 <= i < n && init[i];
        assert bs[i] && bs[n];
      }
    }
  }

  /** The keys that `From` reports are exactly the clashing keys, and there
      are some iff the list clashes. */
  lemma ErrorsAreClashingKeys(list: seq<Action>)
    ensures (set k | k in KeyIndex(list) && |KeyIndex(list)[k]| > 1) == ClashingKeys(list)
    ensures ClashingKeys(list) == {} <==> !HasClash(list)
  {
    var index := KeyIndex(list);
    forall k ensures (k in index && |index[k]| > 1) <==> k in ClashingKeys(list) {
      KeyIndexOwners(list, k);
      OwnersAreCounted(list, k);
      var bs := Claims(list, k);
      CountTrueAtLeastTwo(bs);
      if k in ClashingKeys(list) {
        var i, j :| 0 <= i < j < |list| && k in list[i].Keys() && k in list[j].Keys();
        assert bs[i] && bs[j];
      }
      if k in index && |index[k]| > 1 {
        var i, j :| 0 <= i < j < |bs| && bs[i] && bs[j];
        assert k in list[i].Keys() && k in list[j].Keys();
      }
    }
    if HasClash(list) {
      var i, j :| 0 <= i < j < |list| && SharesKey(list[i], list[j]);
      var k :| k in list[i].Keys() && k in list[j].Keys();
      assert k in ClashingKeys(list);
    }
  }

  // ---------------------------------------------------------------------
  // Lemmas about `find`

  /** In a table of distinct-keyed actions, every key of an iterator action in
      the table leads back to that action. */
  lemma FindReturnsOwner(table: Actions, a: Action, k: Key)
    requires a in table.list && a in Iterator() && k in a.Keys()
    ensures table.Find(k) == Some(a)
  {
    var r := table.Find(k);
    if r.Some? && r.value != a {
      DisjointKeys(r.value, a);
    }
  }

  /** The variants missing from `Iterator()` are never found, whatever the
      table holds. */
  lemma FindSkipsUnlistedActions(table: Actions, k: Key)
    ensures table.Find(k) != Some(Focus(SelectedCountries))
    ensures table.Find(k) != Some(SimpleExport)
    ensures table.Find(k) != Some(RateExport)
  {
  }

  /** Upper-case letters trigger nothing, whatever the table holds. */
  lemma UpperCaseTriggersNothing(table: Actions, c: char)
    requires 'A' <= c <= 'Z'
    ensures table.Find(Char(c)).None?
  {
    var r := table.Find(Char(c));
    if r.Some? {
      ActionOwns(Char(c));
    }
  }

  lemma CtrlNeverTriggersAction(c: char)
    ensures Ctrl(c) !in Action.Action.Keys()
  {
    ActionOwns(Ctrl(c));
  }

  /** The two lookups of the unit tests at actions.rs:151-163. */
  lemma FindExamples()
    ensures Actions([Quit, Sleep]).Find(Ctrl('c')) == Some(Quit)
    ensures Actions([Quit, Sleep]).Find(Alt('w')).None?
  {
    FindReturnsOwner(Actions([Quit, Sleep]), Quit, Ctrl('c'));
    var r := Actions([Quit, Sleep]).Find(Alt('w'));
    if r.Some? {
      ActionOwns(Alt('w'));
    }
  }

  /** The lists of the unit tests at actions.rs:165-193: the five focus and
      control actions build, and a list repeating them does not. */
  lemma FromExamples()
    ensures !HasClash([Quit, Sleep, Focus(CountryFilter), Focus(Protocols), Focus(Mirrors)])
    ensures HasClash([Quit, Sleep, Sleep, Quit, Focus(CountryFilter), Focus(Protocols),
                      Focus(Mirrors), Focus(CountryFilter), Focus(Protocols), Focus(Mirrors)])
  {
    DistinctActionsNeverClash([Quit, Sleep, Focus(CountryFilter), Focus(Protocols), Focus(Mirrors)]);
    var l := [Quit, Sleep, Sleep, Quit, Focus(CountryFilter), Focus(Protocols),
              Focus(Mirrors), Focus(CountryFilter), Focus(Protocols), Focus(Mirrors)];
    assert Ctrl('s') in l[1].Keys() && Ctrl('s') in l[2].Keys();
    assert SharesKey(l[1], l[2]);
  }
}

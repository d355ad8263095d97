/**
  The emoji table and the button map built from it.

  A Python dict is modelled as the sequence of its items in insertion
  order with no key twice: assigning to a key already present replaces its
  value where it stands, assigning to a new key appends it.  Iterating a
  dict visits the items in that order.
 */
module EmojiData {
  import opened PyBuiltins

  datatype EmojiInfo = EmojiInfo(name: string, button: string, pbmFile: string)

  /** The keys of a dict, in iteration order */
  function Keys<V>(d: seq<(string, V)>): (keys: seq<string>)
    ensures |keys| == |d| && forall i :: 0 <= i < |d| ==> keys[i] == d[i].0
  {
    seq(|d|, i requires 0 <= i < |d| => d[i].0)
  }

  /** What makes a sequence of items a dict: no key appears twice */
  predicate UniqueKeys<V>(d: seq<(string, V)>) {
    forall i, j :: 0 <= i < j < |d| ==> d[i].0 != d[j].0
  }

  /** d.get(k) */
  function Get<V>(d: seq<(string, V)>, k: string): (r: Option<V>)
    ensures r.None? <==> forall i :: 0 <= i < |d| ==> d[i].0 != k
    ensures r.Some? ==> exists i :: 0 <= i < |d| && d[i] == (k, r.value)
  {
    if d == [] then None
    else if d[0].0 == k then Some(d[0].1)
    else
      var r := Get(d[1..], k);
      assert r.Some? ==> exists i :: 1 <= i < |d| && d[i] == (k, r.value) by {
        if r.Some? {
          var i :| 0 <= i < |d| - 1 && d[1..][i] == (k, r.value);
          assert d[i + 1] == (k, r.value);
        }
      }
      r
  }

  /** d[k] = v */
  function Assign<V>(d: seq<(string, V)>, k: string, v: V): (r: seq<(string, V)>)
    ensures |r| == (if Get(d, k).Some? then |d| else |d| + 1)
  {
    if d == [] then [(k, v)]
    else if d[0].0 == k then [(k, v)] + d[1..]
    else [d[0]] + Assign(d[1..], k, v)
  }

  /** After d[k] = v, d[k] is v and every other key reads as before */
  lemma {:induction false} AssignGet<V>(d: seq<(string, V)>, k: string, v: V, k': string)
    ensures Get(Assign(d, k, v), k') == if k' == k then Some(v) else Get(d, k')
  {
    if d != [] && d[0].0 != k {
      AssignGet(d[1..], k, v, k');
      assert Assign(d, k, v)[1..] == Assign(d[1..], k, v);
    }
  }

  /** d[k] = v keeps d a dict */
  lemma {:induction false} AssignUnique<V>(d: seq<(string, V)>, k: string, v: V)
    requires UniqueKeys(d)
    ensures UniqueKeys(Assign(d, k, v))
  {
    if d != [] && d[0].0 != k {
      var rest := Assign(d[1..], k, v);
      AssignUnique(d[1..], k, v);
      forall j | 0 <= j < |rest| ensures rest[j].0 != d[0].0 {
        AssignGet(d[1..], k, v, rest[j].0);
        assert Get(rest, rest[j].0).Some?;
      }
    }
  }

  /** The emoji table of the helpers, in its insertion order */
  const EMOJIS: seq<(string, EmojiInfo)> := [
    ("smile", EmojiInfo("Smile", "SW9", "assets/smile.pbm")),
    ("thumbs_up", EmojiInfo("Thumbs Up", "SW18", "assets/thumbs_up.pbm")),
    ("laugh", EmojiInfo("Laugh", "SW10", "assets/laugh.pbm")),
    ("rose", EmojiInfo("Tilted Rose", "SW17", "assets/rose.pbm")),
    ("peace", EmojiInfo("Peace", "SW7", "assets/peace.pbm")),
    ("heart", EmojiInfo("Heart", "SW13", "assets/love.pbm")),
    ("skull", EmojiInfo("Skull", "SW6", "assets/skull.pbm")),
    ("poo", EmojiInfo("Poo", "SW14", "assets/poo.pbm"))
  ]

  /** The order the menu lists the emojis in */
  const EMOJI_ORDER: seq<string> := ["smile", "thumbs_up", "laugh", "rose", "peace", "heart", "skull", "poo"]

  /** The button map the loop builds: button_map[info.button] = key for
      every item of the emoji table, in order */
  function ButtonMap(entries: seq<(string, EmojiInfo)>): seq<(string, string)> {
    if entries == [] then []
    else
      var last := entries[|entries| - 1];
      Assign(ButtonMap(entries[..|entries| - 1]), last.1.button, last.0)
  }

  /** get_button_map(), and the loop in App.__init__ */
  method GetButtonMap(entries: seq<(string, EmojiInfo)>) returns (buttonMap: seq<(string, string)>)
    ensures buttonMap == ButtonMap(entries)
  {
    buttonMap := [];
    for i := 0 to |entries|
      invariant buttonMap == ButtonMap(entries[..i])
    {
      var (emojiKey, emojiData) := entries[i];
      assert entries[..i + 1][..i] == entries[..i];
      buttonMap := Assign(buttonMap, emojiData.button, emojiKey);
    }
    assert entries[..|entries|] == entries;
  }

  /** The key of the last item whose button is b: a reference definition
      for the map, searching the table from its end */
  function LastWith(entries: seq<(string, EmojiInfo)>, b: string): (r: Option<string>)
    ensures r.None? <==> forall i :: 0 <= i < |entries| ==> entries[i].1.button != b
    ensures r.Some? <==> exists i :: (0 <= i < |entries| && entries[i].1.button == b &&
      entries[i].0 == r.value && forall j :: i < j < |entries| ==> entries[j].1.button != b)
  {
    if entries == [] then None
    else
      var n := |entries| - 1;
      if entries[n].1.button == b then Some(entries[n].0)
      else
        var r := LastWith(entries[..n], b);
        assert forall i :: 0 <= i < n ==> entries[..n][i] == entries[i];
        r
  }

  /** The map sends every button to the key of the last item with that
      button, and has no other buttons: a later item overwrites an
      earlier one with the same button */
  lemma {:induction false} ButtonMapLastWins(entries: seq<(string, EmojiInfo)>, b: string)
    ensures Get(ButtonMap(entries), b) == LastWith(entries, b)
  {
    if entries != [] {
      var n := |entries| - 1;
      ButtonMapLastWins(entries[..n], b);
      AssignGet(ButtonMap(entries[..n]), entries[n].1.button, entries[n].0, b);
    }
  }

  /** The map is a dict */
  lemma {:induction false} ButtonMapUnique(entries: seq<(string, EmojiInfo)>)
    ensures UniqueKeys(ButtonMap(entries))
  {
    if entries != [] {
      var n := |entries| - 1;
      ButtonMapUnique(entries[..n]);
      AssignUnique(ButtonMap(entries[..n]), entries[n].1.button, entries[n].0);
    }
  }

  predicate DistinctButtons(entries: seq<(string, EmojiInfo)>) {
    forall i, j :: 0 <= i < j < |entries| ==> entries[i].1.button != entries[j].1.button
  }

  /** With distinct buttons the map inverts the table: the button of
      every item leads back to that item's key */
  lemma ButtonMapInverts(entries: seq<(string, EmojiInfo)>)
    requires DistinctButtons(entries)
    ensures forall i :: 0 <= i < |entries| ==> Get(ButtonMap(entries), entries[i].1.button) == Some(entries[i].0)
  {
    forall i | 0 <= i < |entries| ensures Get(ButtonMap(entries), entries[i].1.button) == Some(entries[i].0) {
      ButtonMapLastWins(entries, entries[i].1.button);
    }
  }

  /** Every button in the map belongs to an item, and the key it leads to
      is that item's key */
  lemma ButtonMapValues(entries: seq<(string, EmojiInfo)>, b: string)
    ensures Get(ButtonMap(entries), b).Some? <==> exists i :: 0 <= i < |entries| && entries[i].1.button == b
    ensures Get(ButtonMap(entries), b).Some? ==> Get(ButtonMap(entries), b).value in Keys(entries)
  {
    ButtonMapLastWins(entries, b);
  }

  /** With distinct buttons the map has one item per table item */
  lemma {:induction false} ButtonMapSize(entries: seq<(string, EmojiInfo)>)
    requires DistinctButtons(entries)
    ensures |ButtonMap(entries)| == |entries|
  {
    if entries != [] {
      var n := |entries| - 1;
      ButtonMapSize(entries[..n]);
      ButtonMapLastWins(entries[..n], entries[n].1.button);
    }
  }

  /** The buttons of a table, in order */
  function Buttons(entries: seq<(string, EmojiInfo)>): (buttons: seq<string>)
    ensures |buttons| == |entries| && forall i :: 0 <= i < |entries| ==> buttons[i] == entries[i].1.button
  {
    seq(|entries|, i requires 0 <= i < |entries| => entries[i].1.button)
  }

  /** The helpers' table gives eight different buttons */
  lemma EmojiButtons()
    ensures DistinctButtons(EMOJIS)
  {
    var b := Buttons(EMOJIS);
    assert b == ["SW9", "SW18", "SW10", "SW17", "SW7", "SW13", "SW6", "SW14"];
  }

  /** The menu order lists the table's keys, in the table's order */
  lemma EmojiOrder()
    ensures EMOJI_ORDER == Keys(EMOJIS)
  {
  }

  /** The helpers' table maps its eight buttons to eight items */
  lemma EmojiButtonMapSize()
    ensures |ButtonMap(EMOJIS)| == 8
  {
    EmojiButtons();
    ButtonMapSize(EMOJIS);
  }

  /** No key appears twice in the helpers' table */
  lemma EmojiKeysUnique()
    ensures UniqueKeys(EMOJIS)
  {
    var k := Keys(EMOJIS);
    assert k == ["smile", "thumbs_up", "laugh", "rose", "peace", "heart", "skull", "poo"];
  }
}

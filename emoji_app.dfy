/**
  The badge application: a menu of emojis, one button each, and the screen
  of the emoji last chosen; SW5 goes back to the menu.
 */
module EmojiApp {
  import opened PyBuiltins
  import opened EmojiData

  /** The application's own emoji table, in its insertion order */
  const MAIN_EMOJIS: seq<(string, EmojiInfo)> := [
    ("smile", EmojiInfo("Smile", "SW9", "smile.pbm")),
    ("thumbs_up", EmojiInfo("Thumbs Up", "SW18", "thumbs_up.pbm")),
    ("laugh", EmojiInfo("Laugh", "SW10", "laugh.pbm")),
    ("rose", EmojiInfo("Wilted Flower srsly", "SW17", "rose.pbm")),
    ("peace", EmojiInfo("Peace", "SW7", "peace.pbm")),
    ("heart", EmojiInfo("Spread love", "SW13", "love.pbm")),
    ("ok", EmojiInfo("Skull", "SW6", "skull.pbm")),
    ("wave", EmojiInfo("Poo", "SW14", "poo.pbm"))
  ]

  /** The application's table gives eight different buttons */
  lemma MainButtons()
    ensures DistinctButtons(MAIN_EMOJIS)
  {
    var b := Buttons(MAIN_EMOJIS);
    assert b == ["SW9", "SW18", "SW10", "SW17", "SW7", "SW13", "SW6", "SW14"];
  }

  /** Each emoji's button leads back to that emoji in the button map */
  lemma MainButtonMapInverts()
    ensures forall i :: 0 <= i < |MAIN_EMOJIS| ==>
      Get(ButtonMap(MAIN_EMOJIS), MAIN_EMOJIS[i].1.button) == Some(MAIN_EMOJIS[i].0)
  {
    MainButtons();
    ButtonMapInverts(MAIN_EMOJIS);
  }

  datatype Screen = Menu | EmojiScreen

  /** A button acts when the hardware has an attribute of that name (and it
      is truthy) and the button is down */
  predicate Active(name: string, buttons: set<string>, pressed: set<string>) {
    name in buttons && name in pressed
  }

  /** The index of the first item of the button map, in iteration order,
      whose button acts */
  function FirstPressed(buttonMap: seq<(string, string)>, buttons: set<string>, pressed: set<string>): (r: Option<nat>)
    ensures r.Some? ==> r.value < |buttonMap| && Active(buttonMap[r.value].0, buttons, pressed)
    ensures r.Some? ==> forall j :: 0 <= j < r.value ==> !Active(buttonMap[j].0, buttons, pressed)
    ensures r.None? <==> forall j :: 0 <= j < |buttonMap| ==> !Active(buttonMap[j].0, buttons, pressed)
  {
    if buttonMap == [] then None
    else if Active(buttonMap[0].0, buttons, pressed) then Some(0)
    else
      var r := FirstPressed(buttonMap[1..], buttons, pressed);
      if r.Some? then Some(r.value + 1) else None
  }

  class App {
    var currentScreen: Screen
    var selectedEmoji: Option<string>
    const emojis: seq<(string, EmojiInfo)>
    var buttonMap: seq<(string, string)>

    /** The map is built from the table, and the emoji screen always has a
        selected emoji, which is a key of the table */
    predicate Valid()
      reads this
    {
      && buttonMap == ButtonMap(emojis)
      && (currentScreen == EmojiScreen ==> selectedEmoji.Some?)
      && (selectedEmoji.Some? ==> selectedEmoji.value in Keys(emojis))
    }

    /** App.__init__: the menu, nothing selected, and the button map of the
        application's table */
    constructor ()
      ensures Valid()
      ensures currentScreen == Menu && selectedEmoji == None
      ensures emojis == MAIN_EMOJIS && buttonMap == ButtonMap(MAIN_EMOJIS)
    {
      currentScreen := Menu;
      selectedEmoji := None;
      emojis := MAIN_EMOJIS;
      new;
      buttonMap := GetButtonMap(emojis);
    }

    /** on_open: back to the menu */
    method OnOpen()
      requires Valid()
      modifies this
      ensures Valid()
      ensures currentScreen == Menu && selectedEmoji == old(selectedEmoji) && buttonMap == old(buttonMap)
    {
      currentScreen := Menu;
    }

    /** check_button_presses, given the button names the hardware has and
        the buttons that are down.  On the menu the first button of the map
        that acts selects its emoji and opens its screen; on an emoji's
        screen SW5 goes back to the menu */
    method CheckButtonPresses(buttons: set<string>, pressed: set<string>)
      requires Valid()
      modifies this
      ensures Valid()
      ensures buttonMap == old(buttonMap)
      ensures old(currentScreen) == Menu ==>
        var first := FirstPressed(buttonMap, buttons, pressed);
        if first.Some? then currentScreen == EmojiScreen && selectedEmoji == Some(buttonMap[first.value].1)
        else currentScreen == Menu && selectedEmoji == old(selectedEmoji)
      ensures old(currentScreen) == EmojiScreen ==>
        currentScreen == (if "SW5" in pressed then Menu else EmojiScreen) && selectedEmoji == old(selectedEmoji)
    {
      if currentScreen == Menu {
        for i := 0 to |buttonMap|
          invariant forall j :: 0 <= j < i ==> !Active(buttonMap[j].0, buttons, pressed)
          invariant currentScreen == Menu && selectedEmoji == old(selectedEmoji)
        {
          var (buttonName, emojiKey) := buttonMap[i];
          if buttonName in buttons && buttonName in pressed {
            MappedKey(emojis, i);
            assert FirstPressed(buttonMap, buttons, pressed) == Some(i);
            selectedEmoji := Some(emojiKey);
            currentScreen := EmojiScreen;
            return;
          }
        }
      } else if "SW5" in pressed {
        currentScreen := Menu;
      }
    }
  }

  /** Every emoji the button map leads to is a key of the table */
  lemma MappedKey(entries: seq<(string, EmojiInfo)>, i: nat)
    requires i < |ButtonMap(entries)|
    ensures ButtonMap(entries)[i].1 in Keys(entries)
  {
    var m := ButtonMap(entries);
    ButtonMapUnique(entries);
    AssignedKey(m, i);
    ButtonMapValues(entries, m[i].0);
  }

  /** An item of a dict is what the dict gives for its key */
  lemma AssignedKey(d: seq<(string, string)>, i: nat)
    requires UniqueKeys(d) && i < |d|
    ensures Get(d, d[i].0) == Some(d[i].1)
  {
    var v := Get(d, d[i].0);
    var j :| 0 <= j < |d| && d[j] == (d[i].0, v.value);
  }

  /** Pressing one button of a table with distinct buttons, alone, on
      the menu selects the emoji of that button */
  lemma SinglePressSelectsIn(entries: seq<(string, EmojiInfo)>, i: nat, buttons: set<string>)
    requires DistinctButtons(entries)
    requires i < |entries| && entries[i].1.button in buttons
    ensures var m := ButtonMap(entries);
      var first := FirstPressed(m, buttons, {entries[i].1.button});
      first.Some? && m[first.value].1 == entries[i].0
  {
    var m := ButtonMap(entries);
    var b := entries[i].1.button;
    assert Get(m, b) == Some(entries[i].0) by {
      ButtonMapInverts(entries);
    }
    var j :| 0 <= j < |m| && m[j] == (b, entries[i].0);
    var first := FirstPressed(m, buttons, {b});
    assert first.Some? by {
      assert Active(m[j].0, buttons, {b});
    }
    assert m[first.value].0 == b;
    assert first.value == j by {
      ButtonMapUnique(entries);
    }
  }

  /** The same for the application's table */
  lemma SinglePressSelects(i: nat, buttons: set<string>)
    requires i < |MAIN_EMOJIS| && MAIN_EMOJIS[i].1.button in buttons
    ensures var m := ButtonMap(MAIN_EMOJIS);
      var first := FirstPressed(m, buttons, {MAIN_EMOJIS[i].1.button});
      first.Some? && m[first.value].1 == MAIN_EMOJIS[i].0
  {
    MainButtons();
    SinglePressSelectsIn(MAIN_EMOJIS, i, buttons);
  }
}

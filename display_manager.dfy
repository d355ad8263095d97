/**
  The screen shown for an emoji received from another badge: the sender's
  handle with an "@" in front, the emoji's name and its bitmap, or
  "Unknown Emoji" for a key the table does not have.
 */
module DisplayManager {
  import opened PyBuiltins
  import opened PbmParser
  import opened ScaledBlit
  import opened EmojiData

  /** The sender's handle as shown: one "@" in front, added only when the
      handle does not already start with one */
  function NormaliseHandle(handle: string): (shown: string)
    ensures StartsWith(shown, "@")
    ensures StartsWith(handle, "@") ==> shown == handle
    ensures !StartsWith(handle, "@") ==> shown[1..] == handle
  {
    if StartsWith(handle, "@") then handle else "@" + handle
  }

  /** Normalising twice is normalising once */
  lemma NormaliseHandleIdempotent(handle: string)
    ensures NormaliseHandle(NormaliseHandle(handle)) == NormaliseHandle(handle)
  {
  }

  /** A received message: None stands for any falsy value (None or an
      empty dict), which draws nothing */
  datatype Message = Message(sender: string, emoji: string)

  /** The part of the screen below the heading */
  datatype EmojiPart =
    | UnknownEmoji                            // "Unknown Emoji", no bitmap
    | KnownEmoji(name: string, drawing: Drawing)

  datatype ReceivedScreen =
    | NotShown
    | Shown(heading: string, emoji: EmojiPart)

  /** The bitmap file of a table entry, as the helpers' parser decodes it */
  function ReceivedDecoded(store: AssetStore, appName: string, info: EmojiInfo): Decoded {
    var asset := OpenAsset(store, HelperAssetPath(appName, info.pbmFile));
    Decode(asset.text, asset.raw)
  }

  /** What draw_received_emoji shows for a message */
  function ReceivedScreenOf(received: Option<Message>, store: AssetStore, appName: string): ReceivedScreen {
    match received
    case None => NotShown
    case Some(m) =>
      var heading := NormaliseHandle(m.sender) + " says";
      match Get(EMOJIS, m.emoji)
      case None => Shown(heading, UnknownEmoji)
      case Some(info) => Shown(heading, KnownEmoji(info.name, Outcome(ReceivedDecoded(store, appName, info), Received)))
  }

  /** draw_received_emoji: the heading and the emoji part it shows, and the
      cells the received-view blit writes, which it does only for a key
      the table has. The canvas records `pixel()` writes only: the
      `fill(1)` that repaints the whole display first is not modelled, so
      a cell "keeps its colour" here where no `pixel()` call reaches it */
  method DrawReceivedEmoji(canvas: array2<int>, received: Option<Message>, store: AssetStore, appName: string)
    returns (screen: ReceivedScreen)
    modifies canvas
    ensures screen == ReceivedScreenOf(received, store, appName)
    ensures forall r, c :: 0 <= r < canvas.Length0 && 0 <= c < canvas.Length1 ==>
      canvas[r, c] == (if received.Some? && Get(EMOJIS, received.value.emoji).Some?
                       then AfterBlit(ReceivedDecoded(store, appName, Get(EMOJIS, received.value.emoji).value),
                                      Received, canvas.Length1, r, c, old(canvas[r, c]))
                       else old(canvas[r, c]))
  {
    if received.None? {
      return NotShown;
    }
    var senderHandle := received.value.sender;
    if !StartsWith(senderHandle, "@") {
      senderHandle := "@" + senderHandle;
    }
    var saysText := senderHandle + " says";
    var emojiDataItem := Get(EMOJIS, received.value.emoji);
    if emojiDataItem.Some? {
      var decoded := ParsePbmFile(store, appName, emojiDataItem.value.pbmFile);
      var drawing := DrawEmojiFromPbm(canvas, decoded, Received);
      screen := Shown(saysText, KnownEmoji(emojiDataItem.value.name, drawing));
    } else {
      screen := Shown(saysText, UnknownEmoji);
    }
  }

  /** The heading always starts with "@"; a received key that the table
      lacks shows "Unknown Emoji", and a key it has shows that entry's name
      and the received-view outcome of that entry's bitmap */
  lemma ReceivedLookup(m: Message, store: AssetStore, appName: string)
    ensures var screen := ReceivedScreenOf(Some(m), store, appName);
      && screen.Shown? && StartsWith(screen.heading, "@")
      && (screen.emoji.UnknownEmoji? <==> forall i :: 0 <= i < |EMOJIS| ==> EMOJIS[i].0 != m.emoji)
      && (forall i :: 0 <= i < |EMOJIS| && EMOJIS[i].0 == m.emoji ==>
            screen.emoji == KnownEmoji(EMOJIS[i].1.name, Outcome(ReceivedDecoded(store, appName, EMOJIS[i].1), Received)))
  {
    var screen := ReceivedScreenOf(Some(m), store, appName);
    assert StartsWith(NormaliseHandle(m.sender) + " says", "@");
    forall i | 0 <= i < |EMOJIS| && EMOJIS[i].0 == m.emoji
      ensures screen.emoji == KnownEmoji(EMOJIS[i].1.name, Outcome(ReceivedDecoded(store, appName, EMOJIS[i].1), Received))
    {
      EmojiKeysUnique();
      var j :| 0 <= j < |EMOJIS| && EMOJIS[j] == (m.emoji, Get(EMOJIS, m.emoji).value);
      assert j == i;
    }
  }
}

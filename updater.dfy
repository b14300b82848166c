/**
 * The deck-list update job of jobs/updater.py: reading the "Updated:" date
 * off the deck-list page, and the periodic check that persists a new date
 * and announces it to every registered chat.
 */
module Updater {
  import opened Wrappers
  import opened PyStr

  // ---------------------------------------------------------------------
  // Reading the update date off the page
  // ---------------------------------------------------------------------

  /** The label the date follows in the page's caption. */
  const Label: string := "Updated:"

  /** What fetching and parsing the deck-list page gives: a request error
      (connection, timeout or an HTTP error status), any other error while
      processing the response, or the page, seen as its `<figcaption>`
      elements in document order. Each caption is its `.string`, which is
      `None` unless the element holds a single piece of text. */
  datatype FetchResult =
    | RequestFailed
    | ProcessingFailed
    | Page(captions: seq<Option<string>>)

  /** The caption filter of the page search: a non-empty text that contains
      the label. The label is not empty, so the emptiness test adds nothing:
      a caption passes exactly when the label can be found in it. */
  predicate HasLabel(caption: Option<string>): (b: bool)
    ensures b <==> caption.Some? && Find(caption.value, Label).Some?
  {
    caption.Some? && caption.value != [] && Contains(caption.value, Label)
  }

  /** The first caption at index `from` or later that passes the filter. */
  function FindCaptionFrom(captions: seq<Option<string>>, from: nat): (r: Option<nat>)
    requires from <= |captions|
    ensures r.Some? ==> from <= r.value < |captions| && HasLabel(captions[r.value])
    ensures r.Some? ==> forall j :: from <= j < r.value ==> !HasLabel(captions[j])
    ensures r.None? ==> forall j :: from <= j < |captions| ==> !HasLabel(captions[j])
    decreases |captions| - from
  {
    if from == |captions| then None
    else if HasLabel(captions[from]) then Some(from)
    else FindCaptionFrom(captions, from + 1)
  }

  /** The page search: the index of the first labelled caption, if any. */
  function FindCaption(captions: seq<Option<string>>): (r: Option<nat>)
    ensures r.Some? ==> r.value < |captions| && HasLabel(captions[r.value])
    ensures r.Some? ==> forall j :: 0 <= j < r.value ==> !HasLabel(captions[j])
    ensures r.None? <==> forall j :: 0 <= j < |captions| ==> !HasLabel(captions[j])
  {
    FindCaptionFrom(captions, 0)
  }

  /** The date read off a labelled caption: its text with surrounding
      whitespace removed, then whatever follows the first label, trimmed
      again; an empty date is no date. */
  function DateFromCaption(caption: string): (r: Option<string>)
    ensures r.Some? ==> r.value != [] && Trimmed(r.value)
  {
    var updatedText := Strip(caption);
    var date := Strip(AfterFirst(updatedText, Label));
    if date != [] then Some(date) else None
  }

  /** `fetch_updated_date_from_site`: the update date shown on the page, or
      `None` when the page could not be fetched or processed, when no
      caption carries the label, or when nothing follows the label. It
      never fails. */
  function FetchUpdatedDate(page: FetchResult): (r: Option<string>)
    ensures r.Some? ==> r.value != [] && Trimmed(r.value)
    ensures r.Some? ==> page.Page? && FindCaption(page.captions).Some?
  {
    match page
    case RequestFailed => None
    case ProcessingFailed => None
    case Page(captions) =>
      match FindCaption(captions)
      case Some(i) => DateFromCaption(captions[i].value)
      case None => None
  }

  /** A failed request or a failure while processing the page gives no date. */
  lemma FetchErrorGivesNoDate(page: FetchResult)
    requires page.RequestFailed? || page.ProcessingFailed?
    ensures FetchUpdatedDate(page) == None
  {
  }

  /** A page none of whose captions carries the label gives no date. */
  lemma NoLabelGivesNoDate(captions: seq<Option<string>>)
    requires forall j :: 0 <= j < |captions| ==> !HasLabel(captions[j])
    ensures FetchUpdatedDate(Page(captions)) == None
  {
  }

  /** The label starts and ends with characters that are not whitespace. */
  lemma LabelEndsAreNotSpace()
    ensures |Label| == 8 && !IsSpace(Label[0]) && !IsSpace(Label[7])
  {
    assert Label[0] == 'U' && Label[7] == ':';
  }

  /** A label in whitespace + `m` + whitespace lies wholly inside `m`. */
  lemma LabelInsideCore(w1: string, m: string, w2: string, k: nat)
    requires AllSpace(w1) && AllSpace(w2)
    requires OccursAt(w1 + m + w2, Label, k)
    ensures |w1| <= k && k + |Label| <= |w1| + |m|
    ensures OccursAt(m, Label, k - |w1|)
  {
    LabelEndsAreNotSpace();
    var s := w1 + m + w2;
    assert s[k] == Label[0];
    assert s[k + 7] == Label[7];
    assert m[k - |w1|..k - |w1| + 8] == s[k..k + 8];
  }

  /** The first label in whitespace + `m` + whitespace is the first label
      in `m`, shifted by the leading whitespace. */
  lemma FirstLabelInsideCore(w1: string, m: string, w2: string)
    requires AllSpace(w1) && AllSpace(w2)
    requires Contains(w1 + m + w2, Label)
    ensures Contains(m, Label)
    ensures Find(w1 + m + w2, Label).value == |w1| + Find(m, Label).value
  {
    var s := w1 + m + w2;
    var k := Find(s, Label).value;
    LabelInsideCore(w1, m, w2, k);
    assert k - |w1| <= |m|;
    var j := Find(m, Label).value;
    OccursShifted(w1, m, w2, j);
  }

  /** A label in `m` is a label in whitespace + `m` + whitespace. */
  lemma OccursShifted(w1: string, m: string, w2: string, j: nat)
    requires OccursAt(m, Label, j)
    ensures OccursAt(w1 + m + w2, Label, |w1| + j)
  {
    assert (w1 + m + w2)[|w1| + j..|w1| + j + |Label|] == m[j..j + |Label|];
  }

  /** The date is the text after the first label in the caption's own text,
      trimmed: stripping the caption before splitting it changes nothing,
      because the label itself holds no whitespace. */
  lemma DateIsTextAfterFirstLabel(caption: string)
    requires Contains(caption, Label)
    ensures var date := Strip(AfterFirst(caption, Label));
            DateFromCaption(caption) == if date == [] then None else Some(date)
  {
    var m := Strip(caption);
    StripThenSplit(caption);
    assert DateFromCaption(caption) == (var date := Strip(AfterFirst(m, Label));
                                        if date != [] then Some(date) else None);
  }

  /** Splitting the stripped caption at its first label and stripping the
      rest gives what splitting the caption itself would. */
  lemma StripThenSplit(caption: string)
    requires Contains(caption, Label)
    ensures Strip(AfterFirst(Strip(caption), Label)) == Strip(AfterFirst(caption, Label))
  {
    StripSplits(caption);
    var a := LeadingSpaces(caption);
    var m := Strip(caption);
    var w1, tail := caption[..a], caption[a + |m|..];
    assert w1 + m + tail == caption;
    SplitInsideCore(w1, m, tail);
  }

  /** Whitespace around `m` changes nothing in what follows its first
      label, once stripped. */
  lemma SplitInsideCore(w1: string, m: string, w2: string)
    requires AllSpace(w1) && AllSpace(w2)
    requires Contains(w1 + m + w2, Label)
    ensures Contains(m, Label)
    ensures Strip(AfterFirst(m, Label)) == Strip(AfterFirst(w1 + m + w2, Label))
  {
    FirstLabelInsideCore(w1, m, w2);
    var s := w1 + m + w2;
    var i := Find(m, Label).value + |Label|;
    var rest := s[|w1| + i..];
    assert AfterFirst(m, Label) == m[i..];
    assert AfterFirst(s, Label) == rest;
    StripRestAfterCore(w1, m, w2, i);
    assert Strip(rest) == Strip(m[i..]);
  }

  /** What follows position `i` of `m`, stripped, is the same with or
      without the whitespace around `m`. */
  lemma StripRestAfterCore(w1: string, m: string, w2: string, i: nat)
    requires i <= |m| && AllSpace(w2)
    ensures Strip((w1 + m + w2)[|w1| + i..]) == Strip(m[i..])
  {
    SliceAfterCore(w1, m, w2, i);
    StripIgnoresTrailingSpace(m[i..], w2);
  }

  /** Cutting whitespace + `m` + `w2` inside `m` leaves the rest of `m`
      followed by `w2`. */
  lemma SliceAfterCore(w1: string, m: string, w2: string, i: nat)
    requires i <= |m|
    ensures (w1 + m + w2)[|w1| + i..] == m[i..] + w2
  {
  }

  /** When a labelled caption is found, the date is the text after its
      first label, trimmed, provided that is not empty. */
  lemma FoundCaptionGivesDate(captions: seq<Option<string>>, i: nat)
    requires i < |captions| && HasLabel(captions[i])
    requires forall j :: 0 <= j < i ==> !HasLabel(captions[j])
    ensures var date := Strip(AfterFirst(captions[i].value, Label));
            FetchUpdatedDate(Page(captions)) == if date == [] then None else Some(date)
  {
    var caption := captions[i].value;
    assert FindCaption(captions) == Some(i);
    assert FetchUpdatedDate(Page(captions)) == DateFromCaption(caption);
    DateIsTextAfterFirstLabel(caption);
  }

  /** A page whose first labelled caption has spaces after the label and
      after the date. */
  lemma CaptionScenario()
    ensures FetchUpdatedDate(Page([None, Some("Decks"), Some("Updated:  2024-02-10 ")])) == Some("2024-02-10")
  {
    var captions := [None, Some("Decks"), Some("Updated:  2024-02-10 ")];
    ScenarioCaptionDate();
    assert !HasLabel(captions[1]);
    assert FindCaption(captions) == Some(2);
    FoundCaptionGivesDate(captions, 2);
  }

  /** The caption of the scenario above carries the label, and its date. */
  lemma ScenarioCaptionDate()
    ensures HasLabel(Some("Updated:  2024-02-10 "))
    ensures Strip(AfterFirst("Updated:  2024-02-10 ", Label)) == "2024-02-10"
  {
    var rest := "  2024-02-10 ";
    assert Label + rest == "Updated:  2024-02-10 ";
    LabelFirst(rest);
    ScenarioStrip();
  }

  /** Stripping the text after the label of the scenario above. */
  lemma ScenarioStrip()
    ensures Strip("  2024-02-10 ") == "2024-02-10"
  {
    assert "  " + "2024-02-10" + " " == "  2024-02-10 ";
    StripUnique("  ", "2024-02-10", " ");
  }

  /** A caption that starts with the label is split right after it. */
  lemma LabelFirst(rest: string)
    ensures HasLabel(Some(Label + rest))
    ensures AfterFirst(Label + rest, Label) == rest
  {
    assert (Label + rest)[..|Label|] == Label;
    assert OccursAt(Label + rest, Label, 0);
  }

  // ---------------------------------------------------------------------
  // The notification message
  // ---------------------------------------------------------------------

  const MessagePrefix: string := "\U{1F4E2} O meta do Marvel Snap foi atualizado ("
  const MessageSuffix: string := ")!\nConfira os novos decks:"

  /** The announcement sent for a new update date. */
  function MessageText(date: string): (text: string)
    ensures |text| == |MessagePrefix| + |date| + |MessageSuffix|
  {
    MessagePrefix + date + MessageSuffix
  }

  /** The date an announcement carries, read back from its text. */
  function DateOfMessage(text: string): (date: Option<string>)
  {
    if |text| >= |MessagePrefix| + |MessageSuffix|
       && text[..|MessagePrefix|] == MessagePrefix
       && text[|text| - |MessageSuffix|..] == MessageSuffix
    then Some(text[|MessagePrefix|..|text| - |MessageSuffix|])
    else None
  }

  /** Every announcement carries its date. */
  lemma MessageCarriesDate(date: string)
    ensures DateOfMessage(MessageText(date)) == Some(date)
  {
    var text := MessageText(date);
    assert text[..|MessagePrefix|] == MessagePrefix;
    assert text[|text| - |MessageSuffix|..] == MessageSuffix;
    assert text[|MessagePrefix|..|text| - |MessageSuffix|] == date;
  }

  /** Two announcements are equal only when their dates are. */
  lemma MessageTextInjective(date1: string, date2: string)
    ensures MessageText(date1) == MessageText(date2) ==> date1 == date2
  {
    MessageCarriesDate(date1);
    MessageCarriesDate(date2);
  }

  /** A link button of the announcement's inline keyboard. */
  datatype Button = UrlButton(caption: string, url: string)

  /** `get_decks_keyboard_for_update`: one row holding one button that links
      to the deck list. */
  function UpdateKeyboard(deckListUrl: string): (keyboard: seq<seq<Button>>)
    ensures |keyboard| == 1 && |keyboard[0]| == 1 && keyboard[0][0].url == deckListUrl
  {
    [[UrlButton("Ver Decks Atualizados", deckListUrl)]]
  }

  // ---------------------------------------------------------------------
  // Recipients
  // ---------------------------------------------------------------------

  /** A chat id as stored: a number or a string. */
  datatype ChatId = IntId(n: int) | StrId(s: string)

  /** Python truthiness of a chat id. */
  predicate Truthy(id: ChatId): (b: bool)
    ensures b <==> id != IntId(0) && id != StrId("")
  {
    match id
    case IntId(n) => n != 0
    case StrId(s) => s != []
  }

  /** A stored chat record; only its optional `chat_id` key is read. */
  datatype ChatEntry = ChatEntry(chatId: Option<ChatId>)

  /** An entry the job sends to: it has a truthy `chat_id`. */
  predicate Notifiable(entry: ChatEntry): (b: bool)
    ensures b <==> entry.chatId != None && entry.chatId != Some(IntId(0)) && entry.chatId != Some(StrId(""))
  {
    entry.chatId.Some? && Truthy(entry.chatId.value)
  }

  /** The chat ids the job sends to, in list order. */
  function Recipients(chats: seq<ChatEntry>): (ids: seq<ChatId>)
    ensures |ids| <= |chats|
    ensures forall k :: 0 <= k < |ids| ==> Truthy(ids[k])
  {
    if chats == [] then []
    else
      var last := chats[|chats| - 1];
      Recipients(chats[..|chats| - 1]) + if Notifiable(last) then [last.chatId.value] else []
  }

  /** The position of entry `j`'s send among all sends: the number of
      notifiable entries before it. */
  function Rank(chats: seq<ChatEntry>, j: nat): nat
    requires j <= |chats|
  {
    |Recipients(chats[..j])|
  }

  /** The sends to a prefix of the list are a prefix of the sends. */
  lemma {:induction false} RecipientsPrefix(chats: seq<ChatEntry>, i: nat)
    requires i <= |chats|
    ensures Recipients(chats[..i]) <= Recipients(chats)
  {
    if i < |chats| {
      var init := chats[..|chats| - 1];
      assert init[..i] == chats[..i];
      RecipientsPrefix(init, i);
    } else {
      assert chats[..i] == chats;
    }
  }

  /** Each notifiable entry gets exactly the send at its rank, with its own
      chat id. */
  lemma RecipientAtRank(chats: seq<ChatEntry>, j: nat)
    requires j < |chats| && Notifiable(chats[j])
    ensures Rank(chats, j) < |Recipients(chats)|
    ensures Recipients(chats)[Rank(chats, j)] == chats[j].chatId.value
  {
    var upTo := chats[..j + 1];
    assert upTo[..j] == chats[..j];
    assert Recipients(upTo) == Recipients(chats[..j]) + [chats[j].chatId.value];
    RecipientsPrefix(chats, j + 1);
  }

  /** Sends follow list order: an earlier notifiable entry is sent to before
      any later entry. */
  lemma RecipientsInListOrder(chats: seq<ChatEntry>, j1: nat, j2: nat)
    requires j1 < j2 <= |chats| && Notifiable(chats[j1])
    ensures Rank(chats, j1) < Rank(chats, j2)
  {
    var upTo := chats[..j2];
    assert upTo[..j1 + 1] == chats[..j1 + 1];
    assert chats[..j1 + 1][..j1] == chats[..j1];
    assert Recipients(chats[..j1 + 1]) == Recipients(chats[..j1]) + [chats[j1].chatId.value];
    RecipientsPrefix(upTo, j1 + 1);
  }

  /** Every send goes to some notifiable entry: the one of that rank. */
  lemma {:induction false} RecipientOrigin(chats: seq<ChatEntry>, k: nat) returns (j: nat)
    requires k < |Recipients(chats)|
    ensures j < |chats| && Notifiable(chats[j]) && Rank(chats, j) == k
  {
    var init := chats[..|chats| - 1];
    var last := chats[|chats| - 1];
    if k < |Recipients(init)| {
      j := RecipientOrigin(init, k);
      assert init[..j] == chats[..j];
    } else {
      j := |chats| - 1;
      assert chats[..j] == init;
    }
  }

  // ---------------------------------------------------------------------
  // One run of the job, as a specification
  // ---------------------------------------------------------------------

  /** What the job does that is observable: persisting a date, or trying to
      send the announcement to a chat, which is delivered or fails. */
  datatype Effect =
    | Saved(date: string)
    | SendAttempt(chatId: ChatId, text: string, keyboard: seq<seq<Button>>, delivered: bool)

  /** The fetched date is worth announcing: it is present, not empty, and
      differs from the persisted one (or none is persisted yet). */
  predicate IsNewUpdate(fetched: Option<string>, lastKnown: Option<string>): (b: bool)
    ensures b <==> fetched != None && fetched != Some("") && fetched != lastKnown
  {
    fetched.Some? && fetched.value != [] && (lastKnown.None? || fetched.value != lastKnown.value)
  }

  /** The persisted date after a run. */
  function MarkerAfter(lastKnown: Option<string>, fetched: Option<string>): (marker: Option<string>)
    ensures marker == lastKnown || marker == fetched
    ensures !IsNewUpdate(fetched, marker)
  {
    if IsNewUpdate(fetched, lastKnown) then fetched else lastKnown
  }

  /** One send attempt per recipient, in order; `sendFails` says which sends
      raise. */
  function Broadcast(ids: seq<ChatId>, text: string, keyboard: seq<seq<Button>>,
                     sendFails: ChatId -> bool): (sends: seq<Effect>)
    ensures |sends| == |ids|
    ensures forall k :: 0 <= k < |sends| ==>
              sends[k].SendAttempt? && sends[k].chatId == ids[k] && sends[k].text == text
  {
    seq(|ids|, k requires 0 <= k < |ids| => SendAttempt(ids[k], text, keyboard, !sendFails(ids[k])))
  }

  /** Everything one run of the job does, given the fetched date, the
      persisted date, the stored chats and which sends fail. */
  function CycleEffects(lastKnown: Option<string>, fetched: Option<string>,
                        chats: seq<ChatEntry>, sendFails: ChatId -> bool,
                        deckListUrl: string): (effects: seq<Effect>)
    ensures |effects| == if IsNewUpdate(fetched, lastKnown) then 1 + |Recipients(chats)| else 0
  {
    if !IsNewUpdate(fetched, lastKnown) then []
    else if chats == [] then [Saved(fetched.value)]
    else
      [Saved(fetched.value)]
      + Broadcast(Recipients(chats), MessageText(fetched.value), UpdateKeyboard(deckListUrl), sendFails)
  }

  /** No date (or an empty one): nothing is saved and nothing is sent. */
  lemma NoDateNoAction(lastKnown: Option<string>, fetched: Option<string>,
                       chats: seq<ChatEntry>, sendFails: ChatId -> bool, url: string)
    requires fetched == None || fetched == Some([])
    ensures CycleEffects(lastKnown, fetched, chats, sendFails, url) == []
    ensures MarkerAfter(lastKnown, fetched) == lastKnown
  {
  }

  /** A date equal to the persisted one: nothing is saved, nothing is sent,
      and the persisted date stays. */
  lemma UnchangedDateNoAction(lastKnown: Option<string>, fetched: Option<string>,
                              chats: seq<ChatEntry>, sendFails: ChatId -> bool, url: string)
    requires fetched == lastKnown
    ensures CycleEffects(lastKnown, fetched, chats, sendFails, url) == []
    ensures MarkerAfter(lastKnown, fetched) == lastKnown
  {
  }

  /** Running the job again on the same date does nothing: the check is
      idempotent. */
  lemma CheckIsIdempotent(lastKnown: Option<string>, fetched: Option<string>,
                          chats1: seq<ChatEntry>, chats2: seq<ChatEntry>,
                          fails1: ChatId -> bool, fails2: ChatId -> bool, url: string)
    ensures var after := MarkerAfter(lastKnown, fetched);
            CycleEffects(after, fetched, chats2, fails2, url) == [] &&
            MarkerAfter(after, fetched) == after
  {
  }

  /** A new date is persisted exactly once, before any send, and only sends
      follow it. */
  lemma SaveOnceBeforeSends(lastKnown: Option<string>, fetched: Option<string>,
                            chats: seq<ChatEntry>, sendFails: ChatId -> bool, url: string)
    requires IsNewUpdate(fetched, lastKnown)
    ensures var effects := CycleEffects(lastKnown, fetched, chats, sendFails, url);
            |effects| >= 1 && effects[0] == Saved(fetched.value) &&
            (forall k :: 1 <= k < |effects| ==> effects[k].SendAttempt?)
    ensures MarkerAfter(lastKnown, fetched) == fetched
  {
  }

  /** With no stored chats the run saves the new date and sends nothing. */
  lemma NoChatsOnlySave(lastKnown: Option<string>, fetched: Option<string>,
                        sendFails: ChatId -> bool, url: string)
    requires IsNewUpdate(fetched, lastKnown)
    ensures CycleEffects(lastKnown, fetched, [], sendFails, url) == [Saved(fetched.value)]
  {
  }

  /** After the save, the run tries one send per notifiable entry, in list
      order, each with the announcement of the new date; a send is
      delivered exactly when it does not fail. */
  lemma OneSendPerRecipient(lastKnown: Option<string>, fetched: Option<string>,
                            chats: seq<ChatEntry>, sendFails: ChatId -> bool, url: string, j: nat)
    requires IsNewUpdate(fetched, lastKnown)
    requires j < |chats| && Notifiable(chats[j])
    ensures var effects := CycleEffects(lastKnown, fetched, chats, sendFails, url);
            var id := chats[j].chatId.value;
            |effects| == 1 + |Recipients(chats)| && Rank(chats, j) < |Recipients(chats)| &&
            effects[1 + Rank(chats, j)] ==
              SendAttempt(id, MessageText(fetched.value), UpdateKeyboard(url), !sendFails(id))
  {
    RecipientAtRank(chats, j);
  }

  /** The log after a run that saves a new date and then notifies a
      non-empty list of chats. */
  lemma NewDateCycle(log: seq<Effect>, lastKnown: Option<string>, fetched: Option<string>,
                     chats: seq<ChatEntry>, sendFails: ChatId -> bool, url: string)
    requires IsNewUpdate(fetched, lastKnown) && chats != []
    ensures log + [Saved(fetched.value)]
              + Broadcast(Recipients(chats), MessageText(fetched.value), UpdateKeyboard(url), sendFails)
            == log + CycleEffects(lastKnown, fetched, chats, sendFails, url)
  {
  }

  /** A failing send stops nothing: which chats are tried, and with what,
      does not depend on which sends fail. */
  lemma FailuresAreIsolated(lastKnown: Option<string>, fetched: Option<string>,
                            chats: seq<ChatEntry>, fails1: ChatId -> bool, fails2: ChatId -> bool,
                            url: string)
    ensures var e1 := CycleEffects(lastKnown, fetched, chats, fails1, url);
            var e2 := CycleEffects(lastKnown, fetched, chats, fails2, url);
            |e1| == |e2| &&
            forall k :: 0 <= k < |e1| ==>
              e1[k].Saved? == e2[k].Saved? &&
              (e1[k].Saved? ==> e1[k] == e2[k]) &&
              (e1[k].SendAttempt? ==> e1[k].chatId == e2[k].chatId && e1[k].text == e2[k].text)
  {
  }

  /** A fetch that fails (a timeout, say) ends the run with nothing saved,
      nothing sent and the persisted date unchanged. */
  lemma FailedFetchChangesNothing(page: FetchResult, lastKnown: Option<string>,
                                  chats: seq<ChatEntry>, sendFails: ChatId -> bool, url: string)
    requires page.RequestFailed? || page.ProcessingFailed?
    ensures CycleEffects(lastKnown, FetchUpdatedDate(page), chats, sendFails, url) == []
    ensures MarkerAfter(lastKnown, FetchUpdatedDate(page)) == lastKnown
  {
    FetchErrorGivesNoDate(page);
  }

  /** The persisted date equals the fetched one: no write, no message. */
  lemma UnchangedScenario(chats: seq<ChatEntry>, sendFails: ChatId -> bool, url: string)
    ensures CycleEffects(Some("2024-01-01"), Some("2024-01-01"), chats, sendFails, url) == []
  {
  }

  /** First run, two chats, every send delivered: the date is persisted and
      both chats get the announcement, in order. */
  lemma FirstRunScenario(url: string)
    ensures var chats := [ChatEntry(Some(IntId(101))), ChatEntry(Some(StrId("@r2")))];
            var text := MessageText("2024-02-10");
            MarkerAfter(None, Some("2024-02-10")) == Some("2024-02-10") &&
            CycleEffects(None, Some("2024-02-10"), chats, _ => false, url) ==
              [Saved("2024-02-10"),
               SendAttempt(IntId(101), text, UpdateKeyboard(url), true),
               SendAttempt(StrId("@r2"), text, UpdateKeyboard(url), true)]
  {
    var chats := [ChatEntry(Some(IntId(101))), ChatEntry(Some(StrId("@r2")))];
    assert chats[..1] == [chats[0]];
    assert Recipients(chats) == [IntId(101), StrId("@r2")];
  }

  /** The date of the most recent save in a log of effects. */
  function LastSaved(log: seq<Effect>): Option<string>
  {
    if log == [] then None
    else if log[|log| - 1].Saved? then Some(log[|log| - 1].date)
    else LastSaved(log[..|log| - 1])
  }

  /** Every send in the log announces the date most recently saved before
      it: the date is persisted before it is broadcast. */
  ghost predicate SendsFollowSave(log: seq<Effect>)
  {
    forall k :: 0 <= k < |log| && log[k].SendAttempt? ==>
      LastSaved(log[..k]).Some? && log[k].text == MessageText(LastSaved(log[..k]).value)
  }

  /** The persisted date is the one most recently saved in the log. */
  ghost predicate StoreMatchesLog(lastKnown: Option<string>, log: seq<Effect>)
  {
    LastSaved(log).Some? ==> lastKnown == LastSaved(log)
  }

  /** A run keeps both invariants of the log. */
  lemma CyclePreservesLog(log: seq<Effect>, lastKnown: Option<string>, fetched: Option<string>,
                          chats: seq<ChatEntry>, sendFails: ChatId -> bool, url: string)
    requires SendsFollowSave(log) && StoreMatchesLog(lastKnown, log)
    ensures var log' := log + CycleEffects(lastKnown, fetched, chats, sendFails, url);
            SendsFollowSave(log') && StoreMatchesLog(MarkerAfter(lastKnown, fetched), log')
  {
    var cycle := CycleEffects(lastKnown, fetched, chats, sendFails, url);
    var log' := log + cycle;
    if cycle != [] {
      var date := fetched.value;
      forall k | |log| < k <= |log'| ensures LastSaved(log'[..k]) == Some(date) {
        SavedStaysLast(log + [Saved(date)], log'[..k]);
      }
      forall k | 0 <= k < |log'| && log'[k].SendAttempt?
        ensures LastSaved(log'[..k]).Some? && log'[k].text == MessageText(LastSaved(log'[..k]).value)
      {
        if k < |log| {
          assert log'[..k] == log[..k];
        }
      }
      assert log'[..|log'|] == log';
    } else {
      assert log' == log;
    }
  }

  /** Appending a save, or a send of the announcement of the last saved
      date, keeps every send after the save it announces. */
  lemma AppendKeepsSendsAfterSave(log: seq<Effect>, e: Effect)
    requires SendsFollowSave(log)
    requires e.SendAttempt? ==> LastSaved(log).Some? && e.text == MessageText(LastSaved(log).value)
    ensures SendsFollowSave(log + [e])
    ensures e.SendAttempt? ==> LastSaved(log + [e]) == LastSaved(log)
  {
    var log' := log + [e];
    assert log'[..|log|] == log;
    forall k | 0 <= k < |log| ensures log'[..k] == log[..k] && log'[k] == log[k] {
    }
  }

  /** Appending sends after a save leaves that save the last one. */
  lemma {:induction false} SavedStaysLast(prefix: seq<Effect>, log: seq<Effect>)
    requires |prefix| >= 1 && prefix[|prefix| - 1].Saved? && prefix <= log
    requires forall k :: |prefix| <= k < |log| ==> log[k].SendAttempt?
    ensures LastSaved(log) == Some(prefix[|prefix| - 1].date)
  {
    if |log| > |prefix| {
      var init := log[..|log| - 1];
      assert prefix <= init;
      SavedStaysLast(prefix, init);
    } else {
      assert log == prefix;
    }
  }

  /** One more entry adds at most one send: the one to that entry. */
  lemma BroadcastStep(chats: seq<ChatEntry>, i: nat, text: string, keyboard: seq<seq<Button>>,
                      sendFails: ChatId -> bool)
    requires i < |chats|
    ensures var before := Broadcast(Recipients(chats[..i]), text, keyboard, sendFails);
            var id := chats[i].chatId;
            Broadcast(Recipients(chats[..i + 1]), text, keyboard, sendFails) ==
              if Notifiable(chats[i]) then before + [SendAttempt(id.value, text, keyboard, !sendFails(id.value))]
              else before
  {
    assert chats[..i + 1][..i] == chats[..i];
  }

  // ---------------------------------------------------------------------
  // The job itself
  // ---------------------------------------------------------------------

  /** The update job with its two collaborators made explicit: the persisted
      update date (`load_last_updated_date` / `save_last_updated_date`) and
      the log of everything saved and sent. */
  class UpdateChecker {
    const deckListUrl: string
    var lastKnown: Option<string>
    var effects: seq<Effect>

    ghost predicate Valid()
      reads this
    {
      SendsFollowSave(effects) && StoreMatchesLog(lastKnown, effects)
    }

    constructor (deckListUrl: string, stored: Option<string>)
      ensures Valid()
      ensures this.deckListUrl == deckListUrl && lastKnown == stored && effects == []
    {
      this.deckListUrl := deckListUrl;
      lastKnown := stored;
      effects := [];
    }

    /** `save_last_updated_date`: a step of `CheckForUpdate`. A save on its
        own keeps the invariant. */
    method SaveLastUpdatedDate(date: string)
      modifies this
      ensures old(Valid()) ==> Valid()
      ensures lastKnown == Some(date)
      ensures effects == old(effects) + [Saved(date)]
    {
      if Valid() {
        AppendKeepsSendsAfterSave(effects, Saved(date));
      }
      lastKnown := Some(date);
      effects := effects + [Saved(date)];
    }

    /** `send_message`, with its exception caught: `fails` says whether the
        platform raises for this send. A step of `CheckForUpdate`: only a
        send of the announcement of the last saved date keeps the
        invariant, and `CheckForUpdate` sends no other. */
    method SendMessage(chatId: ChatId, text: string, keyboard: seq<seq<Button>>, fails: bool)
      returns (delivered: bool)
      modifies this
      ensures (old(Valid()) && LastSaved(old(effects)).Some? &&
               text == MessageText(LastSaved(old(effects)).value)) ==> Valid()
      ensures delivered == !fails
      ensures lastKnown == old(lastKnown)
      ensures effects == old(effects) + [SendAttempt(chatId, text, keyboard, delivered)]
    {
      delivered := !fails;
      if Valid() && LastSaved(effects).Some? && text == MessageText(LastSaved(effects).value) {
        AppendKeepsSendsAfterSave(effects, SendAttempt(chatId, text, keyboard, delivered));
      }
      effects := effects + [SendAttempt(chatId, text, keyboard, delivered)];
    }

    /** The broadcast loop of `check_for_update`: one send per stored chat
        with a truthy `chat_id`, in list order; a failed send is caught and
        the loop goes on. A step of `CheckForUpdate`, which alone keeps
        `Valid()` across the whole run (`CyclePreservesLog`). */
    method NotifyChats(chats: seq<ChatEntry>, text: string, keyboard: seq<seq<Button>>,
                       sendFails: ChatId -> bool)
      modifies this
      ensures lastKnown == old(lastKnown)
      ensures effects == old(effects) + Broadcast(Recipients(chats), text, keyboard, sendFails)
    {
      for i := 0 to |chats|
        invariant lastKnown == old(lastKnown)
        invariant effects == old(effects) + Broadcast(Recipients(chats[..i]), text, keyboard, sendFails)
      {
        BroadcastStep(chats, i, text, keyboard, sendFails);
        var chatId := chats[i].chatId;
        if chatId.Some? && Truthy(chatId.value) {
          var _ := SendMessage(chatId.value, text, keyboard, sendFails(chatId.value));
        }
      }
      assert chats[..|chats|] == chats;
    }

    /** `check_for_update`: fetch the date, compare it with the persisted
        one, and on a new date persist it and announce it to every stored
        chat, one send at a time. */
    method CheckForUpdate(page: FetchResult, chats: seq<ChatEntry>, sendFails: ChatId -> bool)
      requires Valid()
      modifies this
      ensures Valid()
      ensures lastKnown == MarkerAfter(old(lastKnown), FetchUpdatedDate(page))
      ensures effects == old(effects) + CycleEffects(old(lastKnown), FetchUpdatedDate(page),
                                                     chats, sendFails, deckListUrl)
    {
      var current := FetchUpdatedDate(page);
      var lastKnownDate := lastKnown;
      ghost var log := effects;
      ghost var cycle := CycleEffects(lastKnownDate, current, chats, sendFails, deckListUrl);
      CyclePreservesLog(log, lastKnownDate, current, chats, sendFails, deckListUrl);
      if current.Some? && current.value != [] {
        if lastKnownDate.None? || current.value != lastKnownDate.value {
          SaveLastUpdatedDate(current.value);
          if chats == [] {
            assert cycle == [Saved(current.value)];
            return;
          }
          var text := MessageText(current.value);
          var keyboard := UpdateKeyboard(deckListUrl);
          NotifyChats(chats, text, keyboard, sendFails);
          NewDateCycle(log, lastKnownDate, current, chats, sendFails, deckListUrl);
        } else {
          assert cycle == [];
        }
      } else {
        assert cycle == [];
      }
    }
  }
}

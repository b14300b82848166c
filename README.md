# Deck-list update job of galactus_bot, in Dafny

galactus_bot is a Telegram bot for a Marvel Snap community. Every half hour
it runs a job (`check_for_update` in `jobs/updater.py`) that does three
things. It reads the "Updated:" date from the deck-list web page. It compares
that date with the last date it stored. When the date is new, it stores it
and then sends an announcement, with a link button to the deck list, to every
registered chat.

This project models that job and proves what it guarantees:

- what date is read from the page, and that a failed or unusable fetch gives
  no date;
- that a missing or unchanged date causes no save and no message, so the
  check is idempotent;
- that a new date is saved exactly once, before any message is sent;
- that every registered chat with a truthy `chat_id` gets exactly one send
  attempt, in list order, carrying the new date;
- that a failed send stops no other send.

Files:

- `wrappers.dfy`: module `Wrappers`, the `Option` type that stands for
  Python's `None`-or-value.
- `pystr.dfy`: module `PyStr`, the two Python string operations the job
  relies on: `str.strip()` with no argument, using the exact set of
  code points `str.isspace()` accepts, and `str.split(sep, 1)[-1]`. Both are
  functions. `strip()` is tied to a reference definition, proved as a lemma.
  `split(sep, 1)[-1]` is characterised by the function's own contract: the
  text after the first occurrence of `sep`.
- `updater.dfy`: module `Updater`. It contains:
  - the date extraction as pure functions over an abstract page;
  - the announcement text and keyboard;
  - the recipient selection;
  - one run of the job as a specification function, `CycleEffects`;
  - the job itself, as class `UpdateChecker`.

`UpdateChecker` keeps the persisted date (`lastKnown`) and a log of
effects (`effects`). The log records every save (`Saved`) and every send
attempt (`SendAttempt`, which says whether the message was delivered).
`CheckForUpdate` is proved to change that state exactly as `CycleEffects` and
`MarkerAfter` say. The class invariant `Valid()` is kept by every run. It has
two parts:
- every send in the log announces the date most recently saved before it;
- the persisted date is the last one saved.

The environment becomes inputs:
- the fetched page is a `FetchResult`: a request error, a processing error,
  or the page's `<figcaption>` texts in document order;
- the stored chat list is a sequence of `ChatEntry`;
- whether each send raises is an oracle `sendFails: ChatId -> bool`.

## Model

| member | source | states |
|---|---|---|
| `PyStr.Strip` | jobs/updater.py:26-28 | `strip()` leaves no whitespace at either end and never lengthens the text |
| `PyStr.StripUnique` | jobs/updater.py:26-28 | reference definition of `strip()`: whitespace + trimmed core + whitespace strips to exactly that core |
| `PyStr.StripEmptyIffAllSpace` | jobs/updater.py:28-29 | `strip()` gives the empty string exactly when the text is all whitespace, so the test at line 29 rejects whitespace-only dates |
| `PyStr.StripIdempotent` | jobs/updater.py:26-28 | stripping twice is stripping once |
| `PyStr.StripIgnoresTrailingSpace` | jobs/updater.py:28 | whitespace appended to a text does not change what it strips to |
| `PyStr.Find` | jobs/updater.py:28 | the index returned is an occurrence of the separator with none before it, and there is none exactly when the separator does not occur |
| `PyStr.AfterFirst` | jobs/updater.py:28 | `split(sep, 1)[-1]` is the whole text when `sep` does not occur, and otherwise exactly the suffix that follows the first occurrence of `sep` |
| `Updater.HasLabel` | jobs/updater.py:22 | the caption filter accepts a caption exactly when "Updated:" can be found in its text; the label is non-empty, so the emptiness test in the filter never decides |
| `Updater.FindCaption` | jobs/updater.py:21-23 | the page search returns the first caption whose text is non-empty and contains "Updated:", and nothing exactly when no caption does |
| `Updater.DateFromCaption` | jobs/updater.py:26-38 | a date read from a caption is never empty and has no surrounding whitespace |
| `Updater.FetchUpdatedDate` | jobs/updater.py:12-47 | a returned date is non-empty and trimmed, and comes only from a fetched page with a labelled caption |
| `Updater.FetchErrorGivesNoDate` | jobs/updater.py:42-47 | a request error or any processing error gives `None` and never an exception |
| `Updater.NoLabelGivesNoDate` | jobs/updater.py:39-41 | a page with no caption containing "Updated:" gives `None` |
| `Updater.DateIsTextAfterFirstLabel` | jobs/updater.py:25-38 | the date is the caption's text after its first "Updated:", trimmed, or `None` when that is empty; stripping the caption first changes nothing |
| `Updater.StripThenSplit` | jobs/updater.py:26-28 | splitting the stripped caption gives, once stripped, what splitting the raw caption gives |
| `Updater.FoundCaptionGivesDate` | jobs/updater.py:21-38 | for the first labelled caption on the page, the job's date is the trimmed text after its first label, or `None` when that is empty |
| `Updater.CaptionScenario` | jobs/updater.py:21-33 | a page whose labelled caption reads "Updated:  2024-02-10 " gives the date "2024-02-10" |
| `Updater.MessageText` | jobs/updater.py:89 | the announcement is exactly as long as the fixed text around the date plus the date; `MessageCarriesDate` reads the date back from it |
| `Updater.MessageCarriesDate` | jobs/updater.py:89 | the announcement text carries the date, which can be read back from it |
| `Updater.MessageTextInjective` | jobs/updater.py:89 | different dates give different announcements |
| `Updater.UpdateKeyboard` | jobs/updater.py:50-56 | the keyboard is one row with one button linking to the deck list |
| `Updater.Truthy` | jobs/updater.py:94 | a `chat_id` passes the `if chat_id:` test exactly when it is neither the number 0 nor the empty string |
| `Updater.Notifiable` | jobs/updater.py:93-94 | an entry is sent to exactly when its `chat_id` is present and is not 0 or the empty string |
| `Updater.Recipients` | jobs/updater.py:92-94 | at most one recipient per stored entry, and every recipient id is truthy |
| `Updater.RecipientsPrefix` | jobs/updater.py:92 | the sends for a prefix of the chat list are a prefix of all the sends |
| `Updater.RecipientAtRank` | jobs/updater.py:92-100 | each entry with a truthy `chat_id` gets the send at its rank, addressed to its own id |
| `Updater.RecipientsInListOrder` | jobs/updater.py:92-94 | an earlier entry's send comes before any later entry's |
| `Updater.RecipientOrigin` | jobs/updater.py:92-94 | every send comes from some entry with a truthy `chat_id`, the one of that rank; with the lemmas above, the sends match those entries one to one |
| `Updater.BroadcastStep` | jobs/updater.py:92-109 | one more entry adds the send to that entry if its `chat_id` is truthy, and nothing otherwise |
| `Updater.Broadcast` | jobs/updater.py:92-107 | the loop's effects: one send attempt per recipient, addressed to that recipient in order, all with the same announcement, and no save |
| `Updater.IsNewUpdate` | jobs/updater.py:70-74 | a fetched date is acted on exactly when it is present, not empty, and differs from the stored one (or none is stored) |
| `Updater.MarkerAfter` | jobs/updater.py:70-80 | after a run the stored date is either the old one or the fetched one, and the fetched date is no longer new |
| `Updater.CycleEffects` | jobs/updater.py:70-109 | a run does nothing unless the date is new; then it does one save and one send attempt per recipient |
| `Updater.NoDateNoAction` | jobs/updater.py:70-117 | a missing or empty date: nothing saved, nothing sent, stored date unchanged |
| `Updater.FailedFetchChangesNothing` | jobs/updater.py:42-47 | a fetch that fails, a timeout say, ends the run with no save, no send and the stored date unchanged |
| `Updater.UnchangedDateNoAction` | jobs/updater.py:71-74 | a date equal to the stored one: nothing saved, nothing sent, stored date unchanged |
| `Updater.CheckIsIdempotent` | jobs/updater.py:70-113 | running the job again on the same date does nothing, whatever the chat list and send outcomes |
| `Updater.SaveOnceBeforeSends` | jobs/updater.py:71-100 | a new date is stored, and the run's first and only save, which comes before every send, stores it |
| `Updater.NoChatsOnlySave` | jobs/updater.py:82-87 | with an empty chat list the run saves the new date and sends nothing |
| `Updater.OneSendPerRecipient` | jobs/updater.py:89-109 | after the save come exactly one send per entry with a truthy `chat_id`, at its rank, with the announcement of the new date and the deck-list keyboard; it is delivered exactly when it does not fail |
| `Updater.FailuresAreIsolated` | jobs/updater.py:95-107 | which sends are tried, in which order and with what text, does not depend on which sends fail |
| `Updater.UnchangedScenario` | jobs/updater.py:71-113 | stored "2024-01-01" and fetched "2024-01-01": no save, no message |
| `Updater.FirstRunScenario` | jobs/updater.py:70-109 | nothing stored, "2024-02-10" fetched, two chats: the date is stored, then both chats are sent the announcement in order |
| `Updater.CyclePreservesLog` | jobs/updater.py:75-109 | a run keeps two invariants: every send announces the date most recently saved before it, and the stored date is the last one saved |
| `Updater.AppendKeepsSendsAfterSave` | jobs/updater.py:78-100 | adding a save, or a send of the announcement of the last saved date, keeps every send after the save it announces |
| `Updater.SavedStaysLast` | jobs/updater.py:92-109 | sends appended after a save leave that save the most recent |
| `Updater.UpdateChecker.constructor` | bot.py:27-28 | the job starts from the stored date loaded at start-up and an empty log, and the invariant holds |
| `Updater.UpdateChecker.SaveLastUpdatedDate` | jobs/updater.py:78-80 | the stored date becomes the new date, the save is logged, and the invariant is kept |
| `Updater.UpdateChecker.SendMessage` | jobs/updater.py:95-107 | a send attempt is logged with its outcome, its failure is caught, and the stored date is untouched; a send of the announcement of the last saved date keeps the invariant |
| `Updater.UpdateChecker.NotifyChats` | jobs/updater.py:92-109 | the loop logs exactly the sends of the broadcast specification and leaves the stored date alone |
| `Updater.UpdateChecker.CheckForUpdate` | jobs/updater.py:59-119 | the stored date read at lines 66-68 is the `lastKnown` field; the new stored date and the appended effects are exactly those of `MarkerAfter` and `CycleEffects`, and the invariant is kept |

## Left out

- The HTTP request, `raise_for_status`, the 10-second timeout and the
  BeautifulSoup parse (jobs/updater.py:14-23) are network I/O and a foreign
  library. Their outcome is the `FetchResult` input. A page is seen as the
  `.string` of each `<figcaption>` in document order; this is `None` when the
  element does not hold a single piece of text. `get_text(strip=True)` on a
  matching caption is taken to be `strip()` of that string.
- `DECK_LIST_URL` and the other settings from `config` are not part of this
  model. The URL is a constructor parameter of `UpdateChecker`.
- The Telegram types and calls (`InlineKeyboardButton`,
  `InlineKeyboardMarkup`, `CallbackContext`, `send_message`) are foreign. The
  keyboard is a plain value, and a send is an entry in the effects log whose
  outcome comes from the `sendFails` oracle.
- `sendFails` is keyed by chat id. Two entries with the same id in one run
  therefore share an outcome; the source could see different outcomes.
- `async`/`await`, the job scheduler (bot.py:56) and the rest of bot.py are
  not modelled. They only wire handlers and start polling. Runs are taken to
  be serialised, as the scheduler guarantees.
- Logging calls have no effect on behaviour and are left out.
- utils/files (`load_last_updated_date`, `save_last_updated_date`,
  `load_chat_ids`) is not part of this model. The stored date is the
  `lastKnown` field, and the chat list is an input of `CheckForUpdate`.
  These calls are taken never to raise. In the source, an exception from
  one of them would leave the job before the broadcast.
- Chat list entries are taken to be dictionaries. A non-dictionary entry
  would make `chat_info.get` raise outside the `try`, which would end the
  loop; this is not modelled.
- A `chat_id` is an integer or a string, and is truthy when it is non-zero or
  non-empty. Other Python values (booleans, floats) are not modelled.
- Recipients are the stored list, in list order, duplicates included.
- A failed save is not handled by the job; it would raise out of the run
  before the broadcast. Saves are taken never to fail.
- NotifyChats: does not promise `Valid()` on its own. Like
  `SaveLastUpdatedDate` and `SendMessage`, it is a step of `CheckForUpdate`,
  which keeps the invariant over a whole run.

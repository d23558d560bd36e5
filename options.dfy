/** The settings page (options.js): range validation of the history depth,
    the default used when nothing is stored, and the save button's decision. */
module Options {
  import opened Wrappers
  import Config

  /** What `parseInt(text, 10)` yields: an integer, or NaN when the text has
      no leading digits. */
  datatype ParsedInt = Int(value: int) | NaN

  /** JavaScript `x >= k`: every comparison with NaN is false. */
  function AtLeast(x: ParsedInt, k: int): bool
  {
    match x
    case Int(v) => v >= k
    case NaN => false
  }

  /** JavaScript `x <= k`: every comparison with NaN is false. */
  function AtMost(x: ParsedInt, k: int): bool
  {
    match x
    case Int(v) => v <= k
    case NaN => false
  }

  /** A history depth is accepted exactly when it is a number in 2..20. */
  function ValidateTabHistorySize(size: ParsedInt): (ok: bool)
    ensures ok <==> size.Int? && Config.MIN_TAB_HISTORY_SIZE <= size.value <= Config.MAX_TAB_HISTORY_SIZE
  {
    AtLeast(size, Config.MIN_TAB_HISTORY_SIZE) && AtMost(size, Config.MAX_TAB_HISTORY_SIZE)
  }

  /** The boundaries are inclusive; one past either side, and NaN, are refused. */
  lemma ValidationBoundaries()
    ensures ValidateTabHistorySize(Int(2)) && ValidateTabHistorySize(Int(20))
    ensures !ValidateTabHistorySize(Int(1)) && !ValidateTabHistorySize(Int(21))
    ensures !ValidateTabHistorySize(NaN)
  {
  }

  /** A stored depth is one the settings page could have written, or none. */
  predicate ValidStored(stored: Option<int>)
  {
    stored.None? || ValidateTabHistorySize(Int(stored.value))
  }

  /** The configured depth: the stored entry, or the default when the key is unset. */
  function GetTabHistorySize(stored: Option<int>): (size: int)
    ensures stored.None? ==> size == Config.DEFAULT_TAB_HISTORY_SIZE
    ensures stored.Some? ==> size == stored.value
    ensures ValidStored(stored) ==> ValidateTabHistorySize(Int(size))
  {
    match stored
    case Some(v) => v
    case None => Config.DEFAULT_TAB_HISTORY_SIZE
  }

  /** Decimal digits of a natural number, as template literals render it. */
  function DecimalString(n: nat): (s: string)
    ensures |s| >= 1
    ensures forall i :: 0 <= i < |s| ==> '0' <= s[i] <= '9'
    decreases n
  {
    var digit := ['0' + (n % 10) as char];
    if n < 10 then digit else DecimalString(n / 10) + digit
  }

  /** The error shown for an out-of-range depth, built from the configured bounds. */
  function RangeMessage(): string
  {
    "Please enter a number between " + DecimalString(Config.MIN_TAB_HISTORY_SIZE)
      + " and " + DecimalString(Config.MAX_TAB_HISTORY_SIZE)
  }

  const SAVED_MESSAGE: string := "Settings saved!"

  /** What the save button does with a parsed input. */
  datatype SaveDecision = Reject(message: string) | Save(size: int)

  function DecideSave(input: ParsedInt): (d: SaveDecision)
    ensures d.Save? <==> ValidateTabHistorySize(input)
    ensures d.Save? ==> input == Int(d.size)
    ensures d.Reject? ==> d.message == "Please enter a number between 2 and 20"
  {
    if !ValidateTabHistorySize(input) then Reject(RangeMessage()) else Save(input.value)
  }

  /** Whatever the save button stores is read back unchanged, and it is a depth
      the background tracker accepts. */
  lemma SavedSizeReadsBack(input: ParsedInt)
    requires DecideSave(input).Save?
    ensures GetTabHistorySize(Some(DecideSave(input).size)) == input.value
    ensures ValidStored(Some(DecideSave(input).size))
  {
  }

  /** The settings page: its status line and the stored depth. */
  class OptionsPage {
    /** `textContent` of the status element. */
    var statusText: string
    /** `className` of the status element. */
    var statusClass: string
    /** The "tabHistorySize" entry of the synced store (None when unset). */
    var stored: Option<int>

    constructor(stored: Option<int>)
      ensures this.stored == stored && statusText == "" && statusClass == ""
    {
      this.stored := stored;
      statusText := "";
      statusClass := "";
    }

    /** Shows a message, styled by its kind ("error" or "success"). */
    method ShowStatus(message: string, kind: string)
      modifies this
      ensures statusText == message && statusClass == "status-message " + kind
      ensures stored == old(stored)
    {
      statusText := message;
      statusClass := "status-message " + kind;
    }

    /** The depth the input field is filled with when the page loads. */
    method LoadSettings() returns (shown: int)
      ensures stored.None? ==> shown == Config.DEFAULT_TAB_HISTORY_SIZE
      ensures stored.Some? ==> shown == stored.value
    {
      shown := GetTabHistorySize(stored);
    }

    /** The save button: an invalid depth shows the range error and stores
        nothing; a valid one is stored unchanged, then success is shown. */
    method OnSaveClick(input: ParsedInt)
      modifies this
      ensures !ValidateTabHistorySize(input) ==>
        stored == old(stored) && statusText == RangeMessage() && statusClass == "status-message error"
      ensures ValidateTabHistorySize(input) ==>
        stored == Some(input.value) && statusText == SAVED_MESSAGE && statusClass == "status-message success"
    {
      if !ValidateTabHistorySize(input) {
        ShowStatus(RangeMessage(), "error");
        return;
      }
      stored := Some(input.value);
      ShowStatus(SAVED_MESSAGE, "success");
    }
  }
}

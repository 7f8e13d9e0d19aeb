/**
 * The `From` header of every message: `format_sender_address`, and a reader
 * of the header text that undoes it.
 */
module Address {
  import opened Wrappers

  /** `if display_name:` — no display name and an empty one both leave the
      bare address. */
  predicate HasDisplay(display: Option<string>) {
    display.Some? && display.value != ""
  }

  /** `format_sender_address(username, display_name)`. */
  function FormatSenderAddress(username: string, display: Option<string>): string {
    if HasDisplay(display) then display.value + " <" + username + ">" else username
  }

  /** The position of the last `<` in `s`, if any. */
  function LastOpen(s: string): (p: Option<nat>)
    ensures p.Some? ==> p.value < |s| && s[p.value] == '<' && '<' !in s[p.value + 1..]
    ensures p.None? ==> '<' !in s
  {
    if s == [] then None
    else if s[|s| - 1] == '<' then Some(|s| - 1)
    else
      var p := LastOpen(s[..|s| - 1]);
      assert s == s[..|s| - 1] + [s[|s| - 1]];
      if p.Some? then
        assert s[p.value + 1..] == s[..|s| - 1][p.value + 1..] + [s[|s| - 1]];
        p
      else p
  }

  /** Reads a `From` value back: `Name <addr>` gives the name and the
      address between the last `<` and the closing `>`; anything else is a
      bare address. */
  function ParseSender(s: string): (string, Option<string>) {
    var p := LastOpen(s);
    if p.Some? && p.value >= 2 && s[p.value - 1] == ' ' && s[|s| - 1] == '>' && p.value < |s| - 1 then
      (s[p.value + 1..|s| - 1], Some(s[..p.value - 1]))
    else (s, None)
  }

  /** Reading back the header gives the address and display name it was
      made from, for addresses without angle brackets; an empty display
      name reads back as none. */
  lemma ParseFormatRoundTrip(username: string, display: Option<string>)
    requires '<' !in username
    ensures ParseSender(FormatSenderAddress(username, display)) == (username, if HasDisplay(display) then display else None)
  {
    var s := FormatSenderAddress(username, display);
    if HasDisplay(display) {
      var d := display.value;
      var n := |d| + 1;
      assert s[n] == '<';
      assert s[n + 1..] == username + ">";
      assert '<' !in s[n + 1..];
      assert LastOpen(s) == Some(n);
      assert s[n + 1..|s| - 1] == username;
      assert s[..n - 1] == d;
    } else {
      assert LastOpen(s).None?;
    }
  }

  /** The header without a display name is the address itself; with one,
      it ends in the address between angle brackets. */
  lemma FormatSenderShape(username: string, display: Option<string>)
    ensures !HasDisplay(display) <==> FormatSenderAddress(username, display) == username
    ensures HasDisplay(display) ==> |FormatSenderAddress(username, display)| == |display.value| + |username| + 3
  {
    if HasDisplay(display) {
      assert |FormatSenderAddress(username, display)| > |username|;
    }
  }
}

/** The player-name form of `saveHighScore()`: the pattern
    `/^[a-zA-Z0-9]+$/` the name is tested against when the input loses
    focus and when the save button is clicked, the `trim()` applied to an
    accepted name, and the messages shown. */
module HighScore {

  /** A character of the class `[a-zA-Z0-9]`. */
  predicate IsAlnum(c: char)
  {
    'a' <= c <= 'z' || 'A' <= c <= 'Z' || '0' <= c <= '9'
  }

  /** The strings `/^[a-zA-Z0-9]+$/` matches: one or more characters of the
      class, from the first to the last. None of them is a character that
      `trim` removes. */
  predicate ValidName(s: string): (b: bool)
    ensures b ==> forall i :: 0 <= i < |s| ==> !IsTrimmed(s[i])
  {
    |s| > 0 && forall i :: 0 <= i < |s| ==> IsAlnum(s[i])
  }

  /** The code points `String.prototype.trim` removes: ECMAScript's
      WhiteSpace (tab, vertical tab, form feed, space, no-break space, the
      byte order mark and the other space separators of Unicode category
      Zs) and LineTerminator (line feed, carriage return, line separator,
      paragraph separator). */
  predicate IsTrimmed(c: char)
  {
    c in TrimmedSingles || '\U{2000}' <= c <= '\U{200A}'
  }

  /** The code points of `IsTrimmed` outside the run U+2000 to U+200A. */
  const TrimmedSingles: set<char> :=
    {'\t', '\U{000B}', '\U{000C}', ' ', '\U{00A0}', '\U{FEFF}', '\U{1680}', '\U{202F}',
     '\U{205F}', '\U{3000}', '\n', '\r', '\U{2028}', '\U{2029}'}

  /** No character of the class is one `trim` removes. */
  lemma AlnumNotTrimmed(c: char)
    requires IsAlnum(c)
    ensures !IsTrimmed(c)
  {
  }

  /** The number of trimmed characters `s` starts with. */
  function Leading(s: string): (n: nat)
    ensures n <= |s|
    ensures forall i :: 0 <= i < n ==> IsTrimmed(s[i])
    ensures n < |s| ==> !IsTrimmed(s[n])
  {
    if s != [] && IsTrimmed(s[0]) then 1 + Leading(s[1..]) else 0
  }

  /** `s` without its trailing trimmed characters: a prefix of `s` that is
      empty or ends with a kept character, all of whose dropped characters
      are trimmed ones. */
  function TrimEnd(s: string): (r: string)
    ensures |r| <= |s| && r == s[..|r|]
    ensures r != [] ==> !IsTrimmed(r[|r| - 1])
    ensures forall i :: |r| <= i < |s| ==> IsTrimmed(s[i])
  {
    if s != [] && IsTrimmed(s[|s| - 1]) then TrimEnd(s[..|s| - 1]) else s
  }

  /** `s.trim()`: the part of `s` that starts after its leading trimmed
      characters and is followed only by trimmed ones; it starts and ends
      with a kept character (or is empty). */
  function Trim(s: string): (r: string)
    ensures Leading(s) + |r| <= |s| && r == s[Leading(s)..Leading(s) + |r|]
    ensures forall i :: Leading(s) + |r| <= i < |s| ==> IsTrimmed(s[i])
    ensures r != [] ==> !IsTrimmed(r[0]) && !IsTrimmed(r[|r| - 1])
  {
    var a := Leading(s);
    var r := TrimEnd(s[a..]);
    assert forall i :: a + |r| <= i < |s| ==> IsTrimmed(s[i]) by {
      forall i | a + |r| <= i < |s|
        ensures IsTrimmed(s[i])
      {
        assert s[i] == s[a..][i - a];
      }
    }
    r
  }

  /** An accepted name has nothing for `trim` to remove: the name saved
      is the name typed. */
  lemma {:induction false} TrimAccepted(s: string)
    requires ValidName(s)
    ensures Trim(s) == s
  {
    AlnumNotTrimmed(s[0]);
    AlnumNotTrimmed(s[|s| - 1]);
  }

  /** A name with leading or trailing blanks is never accepted, so `trim`
      has nothing to do on any name that is saved. */
  lemma {:induction false} PaddedRejected(s: string)
    requires Trim(s) != s
    ensures !ValidName(s)
  {
    if ValidName(s) {
      TrimAccepted(s);
    }
  }

  const SymbolsMessage := "Symbols are not allowed."
  const InvalidMessage := "Invalid characters in input."

  /** The text of the message paragraph after the `blur` listener ran on
      the input's `value`: empty for an accepted name, the warning about
      symbols otherwise. */
  function BlurMessage(value: string): (m: string)
    ensures m == "" <==> ValidName(value)
    ensures m != "" ==> m == SymbolsMessage
  {
    if ValidName(value) then "" else SymbolsMessage
  }

  /** The `highScore` record the save listener builds. */
  datatype Entry = Entry(playerName: string, score: string)

  /** What a click on the save button does: it rejects the input with a
      message, or it builds the record and shows the confirmation, which
      names the player (and clears the input). */
  datatype SaveOutcome =
    | Rejected(message: string)
    | Saved(entry: Entry, message: string)

  /** The `click` listener of the save button, for the input's `value` and
      the score text read when the form was set up. */
  function SaveClick(value: string, score: string): (r: SaveOutcome)
    ensures r.Saved? <==> ValidName(value)
    ensures r.Rejected? ==> r.message == InvalidMessage
    ensures r.Saved? ==> r.entry == Entry(value, score)
    ensures r.Saved? ==> r.message == "High score saved for " + value + "!"
  {
    if !ValidName(value) then
      Rejected(InvalidMessage)
    else
      var playerName := Trim(value);
      assert playerName == value by {
        TrimAccepted(value);
      }
      Saved(Entry(playerName, score), "High score saved for " + playerName + "!")
  }

  /** Both listeners apply the same test: the `blur` warning shows exactly
      for the names the save button rejects. */
  lemma BlurAgreesWithSave(value: string, score: string)
    ensures BlurMessage(value) == SymbolsMessage <==> SaveClick(value, score).Rejected?
  {
  }
}

/**
 * Building players from their names (Ex02-TicTacToe/PlayerFactory.java), and the ASCII
 * lower-casing that makes the names case-insensitive.
 */
module PlayerFactories {
  import opened Wrappers
  import opened Players

  const HumanName: string := "human"
  const GeniusName: string := "genius"
  const WhateverName: string := "whatever"
  const CleverName: string := "clever"

  /** A name the factory knows, once lower-cased. */
  predicate IsPlayerName(s: string)
  {
    s == HumanName || s == GeniusName || s == WhateverName || s == CleverName
  }

  /** `Character.toLowerCase` on ASCII: 'A'..'Z' become 'a'..'z', every other character is kept. */
  function LowerChar(ch: char): (lc: char)
    ensures 'A' <= ch <= 'Z' ==> 'a' <= lc <= 'z' && lc as int - ch as int == 'a' as int - 'A' as int
    ensures !('A' <= ch <= 'Z') ==> lc == ch
    ensures !('A' <= lc <= 'Z')
  {
    if 'A' <= ch <= 'Z' then (ch as int - 'A' as int + 'a' as int) as char else ch
  }

  /** `String.toLowerCase`, character by character. */
  function ToLower(s: string): (t: string)
    ensures |t| == |s| && forall i :: 0 <= i < |s| ==> t[i] == LowerChar(s[i])
  {
    if s == [] then [] else [LowerChar(s[0])] + ToLower(s[1..])
  }

  /** Lower-casing twice is lower-casing once. */
  lemma ToLowerIdempotent(s: string)
    ensures ToLower(ToLower(s)) == ToLower(s)
  {
    var t := ToLower(s);
    assert forall i :: 0 <= i < |t| ==> LowerChar(t[i]) == t[i];
  }

  /** A name with no upper-case letter is its own lower-case form. */
  lemma ToLowerOfLower(s: string)
    requires forall i :: 0 <= i < |s| ==> !('A' <= s[i] <= 'Z')
    ensures ToLower(s) == s
  {
  }

  /**
   * `buildPlayer`: the kind named by the lower-cased `type`; `None` stands for the `null`
   * returned for any other name.
   */
  function BuildPlayer(kindName: string): (p: Option<PlayerKind>)
    ensures p.Some? <==> IsPlayerName(ToLower(kindName))
    ensures p == Some(Human) <==> ToLower(kindName) == HumanName
    ensures p == Some(Genius) <==> ToLower(kindName) == GeniusName
    ensures p == Some(Whatever) <==> ToLower(kindName) == WhateverName
    ensures p == Some(Clever) <==> ToLower(kindName) == CleverName
  {
    var lowerCaseType := ToLower(kindName);
    if lowerCaseType == HumanName then Some(Human)
    else if lowerCaseType == GeniusName then Some(Genius)
    else if lowerCaseType == WhateverName then Some(Whatever)
    else if lowerCaseType == CleverName then Some(Clever)
    else None
  }

  /** Matching ignores case: a name and its lower-cased form build the same player. */
  lemma BuildPlayerIgnoresCase(kindName: string)
    ensures BuildPlayer(kindName) == BuildPlayer(ToLower(kindName))
  {
    ToLowerIdempotent(kindName);
  }

  /** Every known name, written in lower case, builds a player. */
  lemma BuildPlayerNames(kindName: string)
    requires IsPlayerName(kindName)
    ensures BuildPlayer(kindName).Some?
  {
    ToLowerOfLower(kindName);
  }
}


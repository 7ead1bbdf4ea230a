/** `parseNameFromEmail` (src/lib/utils.ts): a display name guessed from an e-mail address,
    "first.last@company" giving "First Last". */
module Utils {
  import opened Wrappers
  import opened Text

  /** `email.split('@')[0]`: the text before the first '@', or all of it without one. */
  function UserPart(email: string): (u: string)
    ensures u <= email && '@' !in u
    ensures '@' in email ==> |u| < |email| && email[|u|] == '@'
    ensures '@' !in email ==> u == email
  {
    SplitFirst(email, '@');
    SplitPiecesHaveNoSeparator(email, '@');
    Split(email, '@')[0]
  }

  /** `part.charAt(0).toUpperCase() + part.slice(1).toLowerCase()`. */
  function Capitalize(part: string): (r: string)
    ensures |r| == |part|
    ensures Lower(r) == Lower(part)
    ensures r != "" ==> !('a' <= r[0] <= 'z')
    ensures forall i :: 1 <= i < |r| ==> !('A' <= r[i] <= 'Z')
    ensures ' ' !in part ==> ' ' !in r
  {
    if part == "" then ""
    else
      var r := [UpperChar(part[0])] + Lower(part[1..]);
      assert Lower(r)[0] == Lower(part)[0];
      assert forall i :: 1 <= i < |r| ==> Lower(r)[i] == Lower(part)[i];
      r
  }

  /** The capitalised pieces of the user part, split on '.'. */
  function Words(email: string): (ws: seq<string>)
    ensures |ws| == |Split(UserPart(email), '.')|
    ensures forall i :: 0 <= i < |ws| ==> ws[i] == Capitalize(Split(UserPart(email), '.')[i])
  {
    var parts := Split(UserPart(email), '.');
    seq(|parts|, i requires 0 <= i < |parts| => Capitalize(parts[i]))
  }

  /** `parseNameFromEmail`: "Unknown" for a missing or empty address, otherwise the words
      joined by single spaces. */
  function ParseNameFromEmail(email: Option<string>): (r: string)
    ensures email.None? || email.value == "" ==> r == "Unknown"
    ensures email.Some? && email.value != "" ==> r == Join(Words(email.value), " ")
  {
    if email.None? || email.value == "" then "Unknown"
    else Join(Words(email.value), " ")
  }

  /** An address without spaces gives one word per '.'-separated piece of the text before
      the '@' (so one more word than there are dots, empty pieces giving empty words); each
      word is its piece with the first letter upper-cased and the rest lower-cased. */
  lemma NameHasOneWordPerPiece(email: string)
    requires email != "" && ' ' !in email
    ensures Split(ParseNameFromEmail(Some(email)), ' ') == Words(email)
    ensures |Words(email)| == multiset(UserPart(email))['.'] + 1
  {
    var u := UserPart(email);
    var parts := Split(u, '.');
    var ws := Words(email);
    assert forall i :: 0 <= i < |u| ==> u[i] == email[i];
    SplitPiecesHaveNoSeparator(u, ' ');
    assert Split(u, ' ') == [u] by {
      SplitWithoutSeparator(u, ' ');
    }
    forall i | 0 <= i < |parts| ensures ' ' !in parts[i] {
      PieceWithin(u, '.', i);
    }
    SplitJoin(ws, ' ');
    SplitCount(u, '.');
  }

  /** Every piece of a split holds only characters of the string. */
  lemma {:induction false} PieceWithin(s: string, sep: char, i: int)
    requires 0 <= i < |Split(s, sep)|
    ensures forall c :: c in Split(s, sep)[i] ==> c in s
  {
    if |s| > 0 {
      var rest := Split(s[1..], sep);
      if s[0] == sep {
        if i > 0 {
          PieceWithin(s[1..], sep, i - 1);
        }
      } else if i == 0 {
        PieceWithin(s[1..], sep, 0);
      } else {
        PieceWithin(s[1..], sep, i);
      }
    }
  }
}

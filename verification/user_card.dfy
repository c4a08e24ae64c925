/** One user card: the avatar initials, the one-line address, the like
    button's label, and which store operation each of the card's three
    buttons asks for. */
module UserCard {
  import opened Wrappers
  import opened Text
  import opened UserRecord
  import opened UseUsers

  // ---------------------------------------------------------------- initials

  /** `getInitials`: first character of every space-separated piece, joined,
      upper-cased, cut to two characters. */
  function Initials(name: string): (r: string)
    ensures |r| <= 2
    ensures r == Prefix(ToUpper(WordStarts(name)), 2)
  {
    FirstCharsOfSplit(name);
    Prefix(ToUpper(FirstChars(Split(name, ' '))), 2)
  }

  lemma InitialsOfEmptyName()
    ensures Initials("") == ""
  {
  }

  /** A single word gives its upper-cased first character. */
  lemma InitialsOfOneWord(w: string)
    requires |w| > 0 && ' ' !in w
    ensures Initials(w) == [UpperChar(w[0])]
  {
    AfterWordOfSpaceless(w, "");
    assert w + "" == w;
    assert WordStarts(w) == [w[0]] + WordStarts("");
    assert ToUpper([w[0]]) == [UpperChar(w[0])];
  }

  /** Two or more words give the first characters of the first two words;
      whatever follows the second word's start is ignored. */
  lemma InitialsOfTwoOrMoreWords(w1: string, w2: string, tail: string)
    requires |w1| > 0 && ' ' !in w1
    requires |w2| > 0 && w2[0] != ' '
    ensures Initials(w1 + " " + w2 + tail) == [UpperChar(w1[0]), UpperChar(w2[0])]
  {
    var s := w1 + " " + w2 + tail;
    var after := " " + w2 + tail;
    assert s == w1 + after;
    AfterWordOfSpaceless(w1, after);
    assert s[0] == w1[0];
    assert after[1..] == w2 + tail;
    assert WordStarts(s) == [w1[0]] + WordStarts(after);
    assert WordStarts(after) == WordStarts(w2 + tail);
    assert (w2 + tail)[0] == w2[0];
    var ws := WordStarts(s);
    assert ws == [w1[0]] + ([w2[0]] + WordStarts(AfterWord(w2 + tail)));
    assert ws[0] == w1[0] && ws[1] == w2[0];
  }

  /** Doubled, leading and trailing spaces add no characters. */
  lemma InitialsIgnoreExtraSpaces(p: string, q: string, s: string)
    ensures Initials(p + " " + q) == Initials(p + "  " + q)
    ensures Initials(" " + s) == Initials(s)
    ensures Initials(s + " ") == Initials(s)
  {
    WordStartsDoubledSpace(p, q);
    assert (" " + s)[1..] == s;
    WordStartsTrailingSpace(s);
  }

  lemma InitialsExample()
    ensures Initials("Ann  Lee") == "AL"
  {
    assert "Ann  Lee" == "Ann" + "  " + "Lee";
    InitialsIgnoreExtraSpaces("Ann", "Lee", "");
    assert "Ann" + " " + "Lee" == "Ann" + " " + "Lee" + "";
    InitialsOfTwoOrMoreWords("Ann", "Lee", "");
  }

  // ---------------------------------------------------------------- address line

  /** The address paragraph: `suite, street, city - zipcode`. */
  function AddressLine(a: Address): (line: string)
    ensures |line| == |a.suite| + |a.street| + |a.city| + |a.zipcode| + 7
    ensures line[..|a.suite|] == a.suite
    ensures line[|line| - |a.zipcode|..] == a.zipcode
  {
    a.suite + ", " + a.street + ", " + a.city + " - " + a.zipcode
  }

  /** `s` cut at the first `c`, if any. */
  function SplitAtFirst(s: string, c: char): (r: Option<(string, string)>)
    ensures r.None? <==> c !in s
    ensures r.Some? ==> s == r.value.0 + [c] + r.value.1 && c !in r.value.0
  {
    if |s| == 0 then None
    else if s[0] == c then
      assert s == "" + [c] + s[1..];
      Some(("", s[1..]))
    else
      match SplitAtFirst(s[1..], c)
      case None => None
      case Some((a, b)) =>
        assert s == [s[0]] + s[1..];
        Some(([s[0]] + a, b))
  }

  lemma {:induction false} SplitAtFirstOf(a: string, c: char, b: string)
    requires c !in a
    ensures SplitAtFirst(a + [c] + b, c) == Some((a, b))
  {
    if |a| > 0 {
      assert (a + [c] + b)[1..] == a[1..] + [c] + b;
      SplitAtFirstOf(a[1..], c, b);
      assert [a[0]] + a[1..] == a;
    } else {
      assert a + [c] + b == [c] + b;
    }
  }

  /** One field of the line: the text up to the first `c`, which must be
      followed by a space; and the text after that space. */
  function CutField(s: string, c: char): Option<(string, string)>
  {
    match SplitAtFirst(s, c)
    case None => None
    case Some((field, rest)) =>
      if |rest| == 0 || rest[0] != ' ' then None else Some((field, rest[1..]))
  }

  lemma CutFieldOf(a: string, c: char, b: string)
    requires c !in a
    ensures CutField(a + [c, ' '] + b, c) == Some((a, b))
  {
    assert a + [c, ' '] + b == a + [c] + ([' '] + b);
    SplitAtFirstOf(a, c, [' '] + b);
    assert ([' '] + b)[1..] == b;
  }

  /** Reads the four fields back from an address line. */
  function ParseAddressLine(line: string): Option<Address>
  {
    match CutField(line, ',')
    case None => None
    case Some((suite, r1)) =>
      match CutField(r1, ',')
      case None => None
      case Some((street, r2)) =>
        match CutField(r2, '-')
        case None => None
        case Some((cityAndSpace, zipcode)) =>
          if |cityAndSpace| == 0 || cityAndSpace[|cityAndSpace| - 1] != ' ' then None
          else Some(Address(street, suite, cityAndSpace[..|cityAndSpace| - 1], zipcode, None))
  }

  /** The address line loses no field: suite and street without commas and a
      city without a hyphen are read back from it. */
  lemma AddressLineRoundTrip(a: Address)
    requires ',' !in a.suite && ',' !in a.street && '-' !in a.city
    ensures ParseAddressLine(AddressLine(a)) == Some(a.(geo := None))
  {
    var cityAndSpace := a.city + " ";
    var r2 := cityAndSpace + ['-', ' '] + a.zipcode;
    var r1 := a.street + [',', ' '] + r2;
    assert AddressLine(a) == a.suite + [',', ' '] + r1;
    CutFieldOf(a.suite, ',', r1);
    CutFieldOf(a.street, ',', r2);
    assert '-' !in cityAndSpace;
    CutFieldOf(cityAndSpace, '-', a.zipcode);
    assert cityAndSpace[..|cityAndSpace| - 1] == a.city;
  }

  // ---------------------------------------------------------------- actions

  /** The like button's label `user.likeCount || 0`: a record under the like
      invariant never shows a negative count, and a liked one shows at least 1. */
  function LikeLabel(u: User): (n: int)
    ensures u.likeCount.None? ==> n == 0
    ensures u.likeCount.Some? ==> n == u.likeCount.value
    ensures ValidLikes(u) ==> n >= 0 && (u.liked ==> n >= 1)
  {
    LikeCount(u)
  }

  /** The label moves by one with each toggle, in the direction of the new
      flag, and a freshly loaded card shows a label below 100. */
  lemma LikeLabelFollowsToggles(u: User, draw: real)
    requires 0.0 <= draw < 1.0
    ensures LikeLabel(Toggled(u)) == LikeLabel(u) + (if u.liked then -1 else 1)
    ensures LikeLabel(Toggled(Toggled(u))) == LikeLabel(u)
    ensures 0 <= LikeLabel(u.(liked := false, likeCount := Some(InitialLikeCount(draw)))) < 100
  {
  }

  datatype CardAction = LikeButton | EditButton | DeleteButton

  /** What a card button hands to the list. */
  datatype Intent = ToggleLikeOf(userId: int) | EditRecord(user: User) | DeleteRequest(userId: int)

  /** Every button speaks about the card's own record: like and delete pass
      its id, edit passes the record itself. */
  function CardIntent(u: User, a: CardAction): (i: Intent)
    ensures i.ToggleLikeOf? <==> a == LikeButton
    ensures i.DeleteRequest? <==> a == DeleteButton
    ensures i.EditRecord? <==> a == EditButton
    ensures i.ToggleLikeOf? || i.DeleteRequest? ==> i.userId == u.id
    ensures i.EditRecord? ==> i.user == u
  {
    match a
    case LikeButton => ToggleLikeOf(u.id)
    case EditButton => EditRecord(u)
    case DeleteButton => DeleteRequest(u.id)
  }
}

/** The JavaScript string operations the dashboard uses, on `seq<char>`:
    `split` with a one-character separator, `join`, `charAt(0)`, ASCII
    `toUpperCase` and `substring(0, n)`; and an independent description of
    "the first character of every word" that the initials are proved against. */
module Text {

  /** `s.split(sep)`: the pieces between separators, empty ones included. */
  function Split(s: string, sep: char): (parts: seq<string>)
    ensures |parts| >= 1
    ensures forall i | 0 <= i < |parts| :: sep !in parts[i]
    ensures Join(parts, sep) == s
    decreases |s|
  {
    if |s| == 0 then [""]
    else
      var rest := Split(s[1..], sep);
      if s[0] == sep then
        [""] + rest
      else
        assert Join(rest, sep) == s[1..];
        [[s[0]] + rest[0]] + rest[1..]
  }

  /** `parts.join(sep)`. */
  function Join(parts: seq<string>, sep: char): string
  {
    if |parts| == 0 then ""
    else if |parts| == 1 then parts[0]
    else parts[0] + [sep] + Join(parts[1..], sep)
  }

  /** `p.charAt(0)`: the first character, or the empty string for an empty `p`. */
  function CharAt0(p: string): (r: string)
    ensures |r| == (if |p| == 0 then 0 else 1)
    ensures |p| > 0 ==> r[0] == p[0]
  {
    if |p| == 0 then "" else p[..1]
  }

  /** `parts.map(p => p.charAt(0)).join('')`. */
  function FirstChars(parts: seq<string>): string
  {
    if |parts| == 0 then "" else CharAt0(parts[0]) + FirstChars(parts[1..])
  }

  /** What follows the word `s` starts with: `s` from its first space on. */
  function AfterWord(s: string): (r: string)
    ensures |r| <= |s|
    ensures |s| > 0 && s[0] != ' ' ==> |r| < |s|
    ensures |r| > 0 ==> r[0] == ' '
  {
    if |s| == 0 || s[0] == ' ' then s else AfterWord(s[1..])
  }

  /** Reference definition: the first character of every maximal run of
      non-space characters, in order. */
  function WordStarts(s: string): string
    decreases |s|
  {
    if |s| == 0 then ""
    else if s[0] == ' ' then WordStarts(s[1..])
    else [s[0]] + WordStarts(AfterWord(s))
  }

  function UpperChar(c: char): char
  {
    if 'a' <= c <= 'z' then (c as int - 32) as char else c
  }

  /** `s.toUpperCase()` on ASCII; other characters are left as they are. */
  function ToUpper(s: string): (r: string)
    ensures |r| == |s|
    ensures forall i | 0 <= i < |s| :: r[i] == UpperChar(s[i])
  {
    seq(|s|, i requires 0 <= i < |s| => UpperChar(s[i]))
  }

  /** `s.substring(0, n)`. */
  function Prefix(s: string, n: nat): (r: string)
    ensures |r| <= n && |r| <= |s|
    ensures |r| == n || |r| == |s|
    ensures r == s[..|r|]
  {
    if |s| <= n then s else s[..n]
  }

  /** Splitting at spaces and keeping each piece's first character gives
      exactly the first character of every word. */
  lemma {:induction false} FirstCharsOfSplit(s: string)
    ensures FirstChars(Split(s, ' ')) == WordStarts(s)
    decreases |s|, 1
  {
    if |s| == 0 {
    } else {
      var rest := Split(s[1..], ' ');
      if s[0] == ' ' {
        assert Split(s, ' ') == [""] + rest;
        assert ([""] + rest)[1..] == rest;
        FirstCharsOfSplit(s[1..]);
      } else {
        var parts := [[s[0]] + rest[0]] + rest[1..];
        assert Split(s, ' ') == parts;
        assert parts[1..] == rest[1..];
        assert CharAt0(parts[0]) == [s[0]];
        FirstCharsOfSplitTail(s[1..]);
        assert AfterWord(s) == AfterWord(s[1..]);
      }
    }
  }

  /** The pieces after the first one contribute the starts of the words that
      follow the first word. */
  lemma {:induction false} FirstCharsOfSplitTail(s: string)
    ensures FirstChars(Split(s, ' ')[1..]) == WordStarts(AfterWord(s))
    decreases |s|, 0
  {
    if |s| == 0 {
    } else {
      var rest := Split(s[1..], ' ');
      if s[0] == ' ' {
        assert Split(s, ' ') == [""] + rest;
        assert Split(s, ' ')[1..] == rest;
        assert WordStarts(s) == WordStarts(s[1..]);
        FirstCharsOfSplit(s[1..]);
      } else {
        assert Split(s, ' ') == [[s[0]] + rest[0]] + rest[1..];
        assert Split(s, ' ')[1..] == rest[1..];
        FirstCharsOfSplitTail(s[1..]);
      }
    }
  }

  lemma {:induction false} AfterWordOfSpaceless(w: string, t: string)
    requires ' ' !in w
    requires |t| == 0 || t[0] == ' '
    ensures AfterWord(w + t) == t
    decreases |w|
  {
    if |w| == 0 {
      assert w + t == t;
    } else {
      assert (w + t)[1..] == w[1..] + t;
      AfterWordOfSpaceless(w[1..], t);
    }
  }

  /** A space that doubles an existing separator contributes no character. */
  lemma {:induction false} WordStartsDoubledSpace(p: string, q: string)
    ensures WordStarts(p + " " + q) == WordStarts(p + "  " + q)
    decreases |p|
  {
    if |p| == 0 {
      assert p + " " + q == " " + q;
      assert p + "  " + q == " " + (" " + q);
      assert (" " + q)[1..] == q;
      assert (" " + (" " + q))[1..] == " " + q;
    } else if p[0] == ' ' {
      assert (p + " " + q)[1..] == p[1..] + " " + q;
      assert (p + "  " + q)[1..] == p[1..] + "  " + q;
      WordStartsDoubledSpace(p[1..], q);
    } else {
      var a := AfterWord(p);
      AfterWordSplitsAt(p, " " + q);
      AfterWordSplitsAt(p, "  " + q);
      assert p + " " + q == p + (" " + q);
      assert p + "  " + q == p + ("  " + q);
      assert a + (" " + q) == a + " " + q;
      assert a + ("  " + q) == a + "  " + q;
      WordStartsDoubledSpace(a, q);
    }
  }

  /** The rest after the first word of `p + t`, for `t` starting with a space,
      is the rest after the first word of `p` followed by `t`. */
  lemma {:induction false} AfterWordSplitsAt(p: string, t: string)
    requires |t| > 0 && t[0] == ' '
    ensures AfterWord(p + t) == AfterWord(p) + t
    decreases |p|
  {
    if |p| == 0 {
      assert p + t == t;
    } else if p[0] == ' ' {
    } else {
      assert (p + t)[1..] == p[1..] + t;
      AfterWordSplitsAt(p[1..], t);
    }
  }

  /** A trailing space contributes no character. */
  lemma {:induction false} WordStartsTrailingSpace(s: string)
    ensures WordStarts(s + " ") == WordStarts(s)
    decreases |s|
  {
    if |s| == 0 {
      assert s + " " == " ";
      assert " "[1..] == "";
    } else if s[0] == ' ' {
      assert (s + " ")[1..] == s[1..] + " ";
      WordStartsTrailingSpace(s[1..]);
    } else {
      AfterWordSplitsAt(s, " ");
      WordStartsTrailingSpace(AfterWord(s));
    }
  }
}

/**
  The spreadsheet header normaliser `toCamelCase` (lib/string.ts): lower-case the header,
  delete every character outside `[a-zA-Z0-9 ]`, then replace each "space + next character"
  pair, scanning left to right without overlap, by that character upper-cased.
*/
module CamelCase {
  import opened Seqs
  import opened Text

  /** Characters that survive the `[^a-zA-Z0-9 ]` deletion. */
  predicate Kept(c: char) { IsAsciiAlnum(c) || c == ' ' }

  /** `replace(/[^a-zA-Z0-9 ]/g, "")`. */
  function StripDisallowed(s: string): (r: string)
    ensures |r| <= |s|
    ensures forall c <- r :: Kept(c) && c in s
    ensures (forall c <- s :: Kept(c)) ==> r == s
    decreases |s|
  {
    if s == [] then []
    else (if Kept(s[0]) then [s[0]] else []) + StripDisallowed(s[1..])
  }

  /**
    The deletion keeps exactly the letters, digits and spaces, in order and with their
    repetitions: it is the order-preserving filter on the kept alphabet.
  */
  lemma {:induction false} StripDisallowedFilters(s: string)
    ensures StripDisallowed(s) == Filter(Kept, s)
    decreases |s|
  {
    if s != [] {
      StripDisallowedFilters(s[1..]);
    }
  }

  /** What the regular-expression `.` matches: anything but a line terminator. */
  predicate DotMatches(c: char) {
    c != '\n' && c != '\r' && c != '\U{2028}' && c != '\U{2029}'
  }

  /**
    `replace(/ (.)/g, (_, c) => c.toUpperCase())`: scanning from the left, a space and the
    character after it become that character upper-cased; other characters pass through.
  */
  function JoinWords(s: string): (r: string)
    ensures |r| <= |s|
    decreases |s|
  {
    if s == [] then []
    else
      var pair := |s| >= 2 && s[0] == ' ' && DotMatches(s[1]);
      (if pair then [UpperChar(s[1])] else [s[0]]) + JoinWords(s[if pair then 2 else 1..])
  }

  /** The header text after lower-casing and deleting disallowed characters. */
  function Cleaned(header: string): (t: string)
    ensures forall c <- t :: Kept(c) && !IsUpperAscii(c)
  {
    StripDisallowed(ToLower(header))
  }

  /**
    `toCamelCase(header)`: the record key of a column. Every key character is an ASCII
    letter, digit or space, the key is never longer than the header, and the empty header
    gives the empty key.
  */
  function ToCamelCase(header: string): (key: string)
    ensures forall c <- key :: IsAsciiAlnum(c) || c == ' '
    ensures |key| <= |header|
    ensures header == [] ==> key == []
  {
    JoinWordsKept(Cleaned(header));
    JoinWords(Cleaned(header))
  }

  /** Joining words maps text over the kept alphabet to text over the kept alphabet. */
  lemma {:induction false} JoinWordsKept(s: string)
    requires forall c <- s :: Kept(c)
    ensures forall c <- JoinWords(s) :: Kept(c)
    decreases |s|
  {
    if s != [] {
      var pair := |s| >= 2 && s[0] == ' ' && DotMatches(s[1]);
      var k := if pair then 2 else 1;
      assert forall c <- s[k..] :: Kept(c);
      JoinWordsKept(s[k..]);
    }
  }

  /** A header without spaces maps to its lower-cased, cleaned form: the key has no capitals. */
  lemma NoSpaceHeader(header: string)
    requires ' ' !in header
    ensures ToCamelCase(header) == StripDisallowed(ToLower(header))
    ensures forall c <- ToCamelCase(header) :: !IsUpperAscii(c)
  {
    assert ' ' !in ToLower(header);
    assert ' ' !in Cleaned(header);
    JoinWordsPrefix(Cleaned(header), []);
    assert Cleaned(header) + [] == Cleaned(header);
  }

  /** Every space is followed by a character that is neither a space nor a line break. */
  predicate SingleSpaced(s: string) {
    forall i :: 0 <= i < |s| && s[i] == ' ' ==> i + 1 < |s| && s[i + 1] != ' ' && DotMatches(s[i + 1])
  }

  /** `s` with all spaces deleted. */
  function RemoveSpaces(s: string): (r: string)
    ensures ' ' !in r
    decreases |s|
  {
    if s == [] then [] else (if s[0] == ' ' then [] else [s[0]]) + RemoveSpaces(s[1..])
  }

  /** A suffix of single-spaced text is single-spaced. */
  lemma SingleSpacedSuffix(s: string, k: nat)
    requires SingleSpaced(s) && k <= |s|
    ensures SingleSpaced(s[k..])
  {
    var t := s[k..];
    forall i | 0 <= i < |t| && t[i] == ' '
      ensures i + 1 < |t| && t[i + 1] != ' ' && DotMatches(t[i + 1])
    {
      assert s[k + i] == ' ';
    }
  }

  lemma ToLowerCons(c: char, t: string)
    ensures ToLower([c] + t) == [LowerChar(c)] + ToLower(t)
  {}

  /**
    On single-spaced text, joining words deletes exactly the spaces: ignoring letter case
    the result is the text without its spaces, and no space is left.
  */
  lemma {:induction false} JoinWordsSingleSpaced(s: string)
    requires SingleSpaced(s)
    ensures ToLower(JoinWords(s)) == ToLower(RemoveSpaces(s))
    ensures ' ' !in JoinWords(s)
    decreases |s|
  {
    if s == [] {
    } else if s[0] == ' ' {
      assert |s| >= 2 && s[1] != ' ' && DotMatches(s[1]);
      var t := s[2..];
      SingleSpacedSuffix(s, 2);
      JoinWordsSingleSpaced(t);
      LowerOfUpper(s[1]);
      assert s[1..][1..] == t;
      assert RemoveSpaces(s) == [s[1]] + RemoveSpaces(t);
      assert JoinWords(s) == [UpperChar(s[1])] + JoinWords(t);
      ToLowerCons(UpperChar(s[1]), JoinWords(t));
      ToLowerCons(s[1], RemoveSpaces(t));
    } else {
      var t := s[1..];
      SingleSpacedSuffix(s, 1);
      JoinWordsSingleSpaced(t);
      assert JoinWords(s) == [s[0]] + JoinWords(t);
      assert RemoveSpaces(s) == [s[0]] + RemoveSpaces(t);
      ToLowerCons(s[0], JoinWords(t));
      ToLowerCons(s[0], RemoveSpaces(t));
    }
  }

  /**
    The camel-case reading of a text, written independently of the pattern replacement: every
    space is deleted and the character that follows a space is upper-cased; `afterSpace`
    says whether the previous character was a space.
  */
  function Camel(s: string, afterSpace: bool): string
    decreases |s|
  {
    if s == [] then []
    else if s[0] == ' ' then Camel(s[1..], true)
    else [if afterSpace then UpperChar(s[0]) else s[0]] + Camel(s[1..], false)
  }

  /**
    On single-spaced text, the left-to-right replacement of "space + character" pairs is the
    camel-case reading: spaces go and each character after a space is upper-cased.
  */
  lemma {:induction false} JoinWordsCamel(s: string)
    requires SingleSpaced(s)
    ensures JoinWords(s) == Camel(s, false)
    decreases |s|
  {
    if s != [] {
      if s[0] == ' ' {
        assert |s| >= 2 && s[1] != ' ' && DotMatches(s[1]);
        SingleSpacedSuffix(s, 2);
        JoinWordsCamel(s[2..]);
        assert s[1..][1..] == s[2..];
        assert Camel(s, false) == [UpperChar(s[1])] + Camel(s[2..], false);
      } else {
        SingleSpacedSuffix(s, 1);
        JoinWordsCamel(s[1..]);
      }
    }
  }

  /**
    A header whose cleaned text has no double and no trailing space becomes one camel-cased
    token: its key is the cleaned text with each space deleted and the character after it
    upper-cased, so it has no spaces and, ignoring case, is the cleaned text without spaces.
  */
  lemma SingleSpacedHeader(header: string)
    requires SingleSpaced(Cleaned(header))
    ensures ToCamelCase(header) == Camel(Cleaned(header), false)
    ensures ' ' !in ToCamelCase(header)
    ensures ToLower(ToCamelCase(header)) == RemoveSpaces(Cleaned(header))
  {
    var t := Cleaned(header);
    JoinWordsCamel(t);
    JoinWordsSingleSpaced(t);
    RemoveSpacesLowerCase(t);
  }

  lemma {:induction false} RemoveSpacesLowerCase(t: string)
    requires forall c <- t :: !IsUpperAscii(c)
    ensures ToLower(RemoveSpaces(t)) == RemoveSpaces(t)
    decreases |t|
  {
    if t != [] {
      RemoveSpacesLowerCase(t[1..]);
      assert RemoveSpaces(t) == (if t[0] == ' ' then [] else [t[0]]) + RemoveSpaces(t[1..]);
    }
  }

  /**
    Normalising a key a second time lower-cases it: whenever the key has no spaces,
    `toCamelCase(toCamelCase(h))` is the key with its capitals lowered, so the normaliser
    is not idempotent on keys that contain a capital.
  */
  lemma NormaliseTwice(header: string)
    requires ' ' !in ToCamelCase(header)
    ensures ToCamelCase(ToCamelCase(header)) == ToLower(ToCamelCase(header))
  {
    var key := ToCamelCase(header);
    var low := ToLower(key);
    assert forall c <- low :: Kept(c) by {
      forall c <- low ensures Kept(c) {
        var i :| 0 <= i < |low| && low[i] == c;
        assert key[i] in key;
      }
    }
    assert ' ' !in low by {
      forall i | 0 <= i < |low| ensures low[i] != ' ' {
        assert key[i] in key;
      }
    }
    JoinWordsPrefix(low, []);
    assert low + [] == low;
  }

  /** A space-free prefix passes through the word joiner unchanged. */
  lemma {:induction false} JoinWordsPrefix(a: string, b: string)
    requires ' ' !in a
    ensures JoinWords(a + b) == a + JoinWords(b)
    decreases |a|
  {
    if a == [] {
      assert a + b == b;
    } else {
      assert (a + b)[0] == a[0] && (a + b)[1..] == a[1..] + b;
      JoinWordsPrefix(a[1..], b);
    }
  }

  /** A space followed by a character is replaced by that character upper-cased. */
  lemma JoinWordsPair(c: char, b: string)
    requires DotMatches(c)
    ensures JoinWords([' ', c] + b) == [UpperChar(c)] + JoinWords(b)
  {
    assert ([' ', c] + b)[2..] == b;
  }

  /** Two space-free words around one space: the space goes and the next character is upper-cased. */
  lemma TwoWordsJoined(a: string, c: char, b: string)
    requires ' ' !in a && ' ' !in b && DotMatches(c)
    ensures JoinWords(a + ([' ', c] + b)) == a + ([UpperChar(c)] + b)
  {
    JoinWordsPrefix(a, [' ', c] + b);
    JoinWordsPair(c, b);
    JoinWordsPrefix(b, []);
    assert b + [] == b;
  }

  lemma AllKept(s: string)
    requires forall i :: 0 <= i < |s| ==> Kept(s[i])
    ensures StripDisallowed(s) == s
  {}

  lemma CurrentJobCleaned()
    ensures Cleaned("Current Job") == "current job"
  {
    assert ToLower("Current Job") == "current job";
    AllKept("current job");
  }

  lemma PhoneNumberCleaned()
    ensures Cleaned("Phone Number") == "phone number"
  {
    assert ToLower("Phone Number") == "phone number";
    AllKept("phone number");
  }

  lemma DateOfBirthCleaned()
    ensures Cleaned("Date of Birth") == "date of birth"
  {
    assert ToLower("Date of Birth") == "date of birth";
    AllKept("date of birth");
  }

  lemma TrailingSpaceCleaned()
    ensures Cleaned("Job ") == "job "
  {
    assert ToLower("Job ") == "job ";
    AllKept("job ");
  }

  lemma DoubleSpaceCleaned()
    ensures Cleaned("Current  Job") == "current  job"
  {
    assert ToLower("Current  Job") == "current  job";
    AllKept("current  job");
  }

  lemma CamelCasedKeyCleaned()
    ensures Cleaned("currentJob") == "currentjob"
  {
    assert ToLower("currentJob") == "currentjob";
    AllKept("currentjob");
  }

  lemma CurrentJobJoined()
    ensures JoinWords("current job") == "currentJob"
  {
    JoinWordsPrefix("current", [' ', 'j'] + "ob");
    JoinWordsPair('j', "ob");
    JoinWordsPrefix("ob", []);
    assert "current" + ([' ', 'j'] + "ob") == "current job";
    assert "ob" + [] == "ob";
  }

  lemma PhoneNumberJoined()
    ensures JoinWords("phone number") == "phoneNumber"
  {
    JoinWordsPrefix("phone", [' ', 'n'] + "umber");
    JoinWordsPair('n', "umber");
    JoinWordsPrefix("umber", []);
    assert "phone" + ([' ', 'n'] + "umber") == "phone number";
    assert "umber" + [] == "umber";
  }

  lemma DateOfBirthJoined()
    ensures JoinWords("date of birth") == "dateOfBirth"
  {
    BirthJoined();
    JoinWordsPrefix("date", [' ', 'o'] + "f birth");
    JoinWordsPair('o', "f birth");
    assert "date" + ([' ', 'o'] + "f birth") == "date of birth";
  }

  lemma BirthJoined()
    ensures JoinWords("f birth") == "fBirth"
  {
    JoinWordsPrefix("f", [' ', 'b'] + "irth");
    JoinWordsPair('b', "irth");
    JoinWordsPrefix("irth", []);
    assert "f" + ([' ', 'b'] + "irth") == "f birth";
    assert "irth" + [] == "irth";
  }

  lemma TrailingSpaceJoined()
    ensures JoinWords("job ") == "job "
  {
    JoinWordsPrefix("job", " ");
    assert JoinWords(" ") == " ";
    assert "job" + " " == "job ";
  }

  lemma DoubleSpaceJoined()
    ensures JoinWords("current  job") == "current job"
  {
    JoinWordsPrefix("current", [' ', ' '] + "job");
    JoinWordsPair(' ', "job");
    JoinWordsPrefix("job", []);
    assert "current" + ([' ', ' '] + "job") == "current  job";
    assert "job" + [] == "job";
  }

  lemma CamelCasedKeyJoined()
    ensures JoinWords("currentjob") == "currentjob"
  {
    JoinWordsPrefix("currentjob", []);
    assert "currentjob" + [] == "currentjob";
  }

  /**
    Headers of the alumni sheet become camel-cased keys; a trailing space survives; a double
    space leaves one space and capitalises nothing; and normalising a camel-cased key again
    lower-cases it, so the normaliser is not idempotent.
  */
  lemma Examples()
    ensures ToCamelCase("Current Job") == "currentJob"
    ensures ToCamelCase("Phone Number") == "phoneNumber"
    ensures ToCamelCase("Date of Birth") == "dateOfBirth"
    ensures ToCamelCase("Job ") == "job "
    ensures ToCamelCase("Current  Job") == "current job"
    ensures ToCamelCase(ToCamelCase("Current Job")) == "currentjob" != ToCamelCase("Current Job")
  {
    CurrentJobCleaned();
    CurrentJobJoined();
    PhoneNumberCleaned();
    PhoneNumberJoined();
    DateOfBirthCleaned();
    DateOfBirthJoined();
    TrailingSpaceCleaned();
    TrailingSpaceJoined();
    DoubleSpaceCleaned();
    DoubleSpaceJoined();
    CamelCasedKeyCleaned();
    CamelCasedKeyJoined();
  }
}

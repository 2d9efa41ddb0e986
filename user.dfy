/**
 * Two computed attributes of the `User` model: the initials shown in avatars and
 * the public URL of the profile photo.
 */
module Users {
  import opened Wrappers
  import opened PhpStrings

  /** `Str::substr($word, 0, 1)`: the first character, or '' for an empty word. */
  function FirstChar(word: string): (r: string)
    ensures |r| <= 1 && (r == [] <==> word == [])
    ensures r != [] ==> r[0] == word[0]
  {
    if word == [] then [] else [word[0]]
  }

  /** The first characters of the words, joined with nothing; an empty word adds nothing. */
  function FirstChars(words: seq<string>): (r: string)
    ensures |r| <= |words|
  {
    if words == [] then [] else FirstChar(words[0]) + FirstChars(words[1..])
  }

  /** When no word is empty, the initials are one character per word: each word's first, in order. */
  lemma {:induction false} FirstCharsOfNonEmptyWords(words: seq<string>)
    requires forall k :: 0 <= k < |words| ==> words[k] != []
    ensures |FirstChars(words)| == |words|
    ensures forall k :: 0 <= k < |words| ==> FirstChars(words)[k] == words[k][0]
  {
    if words != [] {
      FirstCharsOfNonEmptyWords(words[1..]);
      assert forall k :: 1 <= k < |words| ==> words[k] == words[1..][k - 1];
    }
  }

  /** The initials of two lists of words are the initials of each, in order. */
  lemma {:induction false} FirstCharsAppend(a: seq<string>, b: seq<string>)
    ensures FirstChars(a + b) == FirstChars(a) + FirstChars(b)
  {
    if a == [] {
      assert a + b == b;
    } else {
      assert (a + b)[0] == a[0] && (a + b)[1..] == a[1..] + b;
      FirstCharsAppend(a[1..], b);
    }
  }

  /** `initials`: the first character of each of the first two space-separated words. */
  function Initials(name: string): (r: string)
    ensures |r| <= 2
  {
    var words := Split(name, {' '});
    FirstChars(if |words| > 2 then words[..2] else words)
  }

  /** Each initial is the first character of a word, and no initial is a space. */
  lemma {:induction false} FirstCharsAreWordStarts(words: seq<string>)
    requires forall k :: 0 <= k < |words| ==> NoneOf(words[k], {' '})
    ensures NoneOf(FirstChars(words), {' '})
  {
    if words != [] {
      FirstCharsAreWordStarts(words[1..]);
      var head := FirstChar(words[0]);
      var tail := FirstChars(words[1..]);
      assert forall i :: 0 <= i < |head + tail| ==> (head + tail)[i] == if i < |head| then words[0][0] else tail[i - |head|];
    }
  }

  /** Initials never contain a space. */
  lemma InitialsHaveNoSpace(name: string)
    ensures NoneOf(Initials(name), {' '})
  {
    var words := Split(name, {' '});
    FirstCharsAreWordStarts(if |words| > 2 then words[..2] else words);
  }

  /**
   * For a name made of words separated by single spaces, the initials are the
   * first characters of the first two words; later words are ignored.
   */
  lemma InitialsOfWords(words: seq<string>)
    requires |words| >= 1
    requires forall k :: 0 <= k < |words| ==> NoneOf(words[k], {' '})
    ensures Initials(Join(words, " ")) == FirstChars(if |words| > 2 then words[..2] else words)
  {
    SplitJoin(words, ' ', {' '});
  }

  /** Two words give two initials. */
  lemma InitialsOfTwoWords()
    ensures Initials("John Doe") == "JD"
  {
    var words := ["John", "Doe"];
    InitialsOfWords(words);
    assert Join(words, " ") == "John Doe";
    assert FirstChars(words) == "JD" by {
      assert FirstChars(words[1..]) == "D";
    }
  }

  /** One word gives one initial. */
  lemma InitialsOfOneWord()
    ensures Initials("Alice") == "A"
  {
    InitialsOfWords(["Alice"]);
  }

  /** A third word is ignored. */
  lemma InitialsOfThreeWords()
    ensures Initials("Bob Charles Dylan") == "BC"
  {
    var words := ["Bob", "Charles", "Dylan"];
    InitialsOfWords(words);
    assert Join(words, " ") == "Bob Charles Dylan" by {
      assert Join(words[1..], " ") == "Charles Dylan";
    }
    assert words[..2] == ["Bob", "Charles"];
    assert FirstChars(["Bob", "Charles"]) == "BC" by {
      assert FirstChars(["Charles"]) == "C";
    }
  }

  /** Two spaces make an empty second word, which gives no initial. */
  lemma InitialsOfDoubleSpace()
    ensures Initials("John  Doe") == "J"
  {
    var words := ["John", "", "Doe"];
    InitialsOfWords(words);
    assert Join(words, " ") == "John  Doe" by {
      assert Join(words[1..], " ") == " Doe";
    }
    assert words[..2] == ["John", ""];
    assert FirstChars(["John", ""]) == "J" by {
      assert FirstChars([""]) == "";
    }
  }

  /** PHP truthiness of a nullable string: null, '' and '0' are false. */
  predicate Truthy(s: Option<string>)
  {
    s.Some? && s.value != "" && s.value != "0"
  }

  /** `photo_url`: the stored photo's path for the storage URL builder, or null for a falsy photo. */
  function PhotoUrl(photo: Option<string>): (r: Option<string>)
    ensures r.None? <==> !Truthy(photo)
    ensures r.Some? ==> r == photo
  {
    if Truthy(photo) then photo else None
  }
}

/** The sort key a song title is grouped by: the title is uppercased, and
    each letter becomes its position in the alphabet (A = 1 … Z = 26), a
    space becomes 0x04, a slash 0x0A, and every other character is dropped.
    Characters are taken to be ASCII, so uppercasing maps a–z to A–Z and
    leaves everything else alone. */
module GroupingKey {
  import opened Bytes

  /** `uppercased()` on one ASCII character: a lowercase letter becomes the
      capital whose lowercase it is, and every other character is kept. */
  function Upper(c: char): (r: char)
    ensures !('a' <= r <= 'z')
    ensures 'a' <= c <= 'z' ==> 'A' <= r <= 'Z' && Lower(r) == c
    ensures !('a' <= c <= 'z') ==> r == c
  {
    if 'a' <= c <= 'z' then (c as int - 32) as char else c
  }

  function Lower(c: char): char
  {
    if 'A' <= c <= 'Z' then (c as int + 32) as char else c
  }

  /** `String.uppercased()` on ASCII text. */
  function Uppercased(s: string): (r: string)
    ensures |r| == |s|
    ensures forall i | 0 <= i < |s| :: r[i] == Upper(s[i])
  {
    seq(|s|, i requires 0 <= i < |s| => Upper(s[i]))
  }

  function Lowercased(s: string): (r: string)
    ensures |r| == |s|
    ensures forall i | 0 <= i < |s| :: r[i] == Lower(s[i])
  {
    seq(|s|, i requires 0 <= i < |s| => Lower(s[i]))
  }

  /** The bytes one character of the uppercased text contributes: at most
      one, and one exactly for a capital letter, a space or a slash. */
  function CharKey(c: char): (r: seq<byte>)
    ensures |r| <= 1
    ensures r != [] <==> 'A' <= c <= 'Z' || c == ' ' || c == '/'
    ensures forall k | 0 <= k < |r| :: 1 <= r[k] <= 26
  {
    if 'A' <= c <= 'Z' then [c as int - 'A' as int + 1]
    else if c == ' ' then [0x04]
    else if c == '/' then [0x0A]
    else []
  }

  /** The bytes of already uppercased text, character by character. */
  function KeyOf(s: string): seq<byte>
  {
    if s == [] then [] else KeyOf(s[..|s| - 1]) + CharKey(s[|s| - 1])
  }

  /** No more bytes than characters, each between 1 and 26. */
  lemma {:induction false} KeyOfBounds(s: string)
    ensures |KeyOf(s)| <= |s|
    ensures forall k | 0 <= k < |KeyOf(s)| :: 1 <= KeyOf(s)[k] <= 26
    decreases |s|
  {
    if s != [] {
      KeyOfBounds(s[..|s| - 1]);
    }
  }

  /** The grouping key of a title: empty for the empty title, no longer
      than the title, and each byte between 1 and 26 (a letter's position, 4
      for a space or 10 for a slash). */
  function GroupingKey(text: string): (r: seq<byte>)
    ensures text == [] ==> r == []
    ensures |r| <= |text|
    ensures forall k | 0 <= k < |r| :: 1 <= r[k] <= 26
  {
    if text == [] then []
    else
      KeyOfBounds(Uppercased(text));
      KeyOf(Uppercased(text))
  }

  /** `SongMetadata.generateGroupingKey`: returns at once on the empty
      string, otherwise walks the uppercased text and appends each
      character's byte, if it has one. */
  method GenerateGroupingKey(text: string) returns (key: seq<byte>)
    ensures key == GroupingKey(text)
  {
    if text == [] {
      return [];
    }
    var upper := Uppercased(text);
    var result: seq<byte> := [];
    for i := 0 to |upper|
      invariant result == KeyOf(upper[..i])
    {
      var c := upper[i];
      if 'A' <= c <= 'Z' {
        result := result + [c as int - 'A' as int + 1];
      } else if c == ' ' {
        result := result + [0x04];
      } else if c == '/' {
        result := result + [0x0A];
      }
      KeyOfStep(upper, i);
    }
    assert upper[..|upper|] == upper;
    key := result;
  }

  lemma KeyOfStep(s: string, i: nat)
    requires i < |s|
    ensures KeyOf(s[..i + 1]) == KeyOf(s[..i]) + CharKey(s[i])
  {
    assert s[..i + 1][..i] == s[..i];
  }

  // ---------------------------------------------------------------------
  // Single characters

  /** A letter, in either case, gives exactly one byte: its position in the
      alphabet. */
  lemma LetterKey(c: char)
    requires 'A' <= c <= 'Z'
    ensures GroupingKey([c]) == GroupingKey([Lower(c)]) == [c as int - 'A' as int + 1]
    ensures 1 <= c as int - 'A' as int + 1 <= 26
  {
    assert Upper(Lower(c)) == c;
    assert Uppercased([c]) == [c];
    assert Uppercased([Lower(c)]) == [c];
    assert [c][..0] == [];
    assert KeyOf([c]) == CharKey(c);
  }

  lemma AlphabetEnds()
    ensures GroupingKey("A") == GroupingKey("a") == [1]
    ensures GroupingKey("Z") == GroupingKey("z") == [26]
  {
    LetterKey('A');
    LetterKey('Z');
  }

  /** A space gives 0x04 and a slash 0x0A. */
  lemma SeparatorKeys()
    ensures GroupingKey(" ") == [0x04]
    ensures GroupingKey("/") == [0x0A]
  {
    assert Uppercased(" ") == " " && Uppercased("/") == "/";
    assert " "[..0] == [] && "/"[..0] == [];
  }

  // ---------------------------------------------------------------------
  // Whole texts

  lemma UppercasedAppend(a: string, b: string)
    ensures Uppercased(a + b) == Uppercased(a) + Uppercased(b)
  {
    assert forall i | 0 <= i < |a + b| :: Uppercased(a + b)[i] == (Uppercased(a) + Uppercased(b))[i];
  }

  lemma {:induction false} KeyOfAppend(a: string, b: string)
    ensures KeyOf(a + b) == KeyOf(a) + KeyOf(b)
    decreases |b|
  {
    if b == [] {
      assert a + b == a;
    } else {
      var front, last := b[..|b| - 1], b[|b| - 1];
      assert (a + b)[..|a + b| - 1] == a + front;
      assert (a + b)[|a + b| - 1] == last;
      KeyOfAppend(a, front);
    }
  }

  /** One more character at the end adds its byte, if any, at the end. */
  lemma GroupingKeySnoc(text: string, c: char)
    ensures GroupingKey(text + [c]) == GroupingKey(text) + CharKey(Upper(c))
  {
    var u := Uppercased(text + [c]);
    assert u[..|text|] == Uppercased(text);
    assert KeyOf(u) == KeyOf(u[..|text|]) + CharKey(u[|text|]);
    if text == [] {
      assert u[..|text|] == [];
    }
  }

  /** The key of two texts one after the other is the first key followed by
      the second: each character is mapped on its own. */
  lemma GroupingKeyAppend(a: string, b: string)
    ensures GroupingKey(a + b) == GroupingKey(a) + GroupingKey(b)
  {
    if a == [] {
      assert a + b == b;
    } else if b == [] {
      assert a + b == a;
    } else {
      UppercasedAppend(a, b);
      KeyOfAppend(Uppercased(a), Uppercased(b));
    }
  }

  /** Upper- and lowercase forms of a text have the same key. */
  lemma CaseInsensitive(text: string)
    ensures GroupingKey(Lowercased(text)) == GroupingKey(text)
    ensures GroupingKey(Uppercased(text)) == GroupingKey(text)
  {
    assert Uppercased(Lowercased(text)) == Uppercased(text);
    assert Uppercased(Uppercased(text)) == Uppercased(text);
  }

  // ---------------------------------------------------------------------
  // Which characters the key keeps, and in what order

  /** A character that contributes a byte: a letter of either case, a
      space or a slash. */
  predicate Kept(c: char)
  {
    CharKey(Upper(c)) != []
  }

  /** Exactly letters of either case, the space and the slash are kept. */
  lemma KeptCharacters(c: char)
    ensures Kept(c) <==> 'A' <= c <= 'Z' || 'a' <= c <= 'z' || c == ' ' || c == '/'
  {
  }

  /** The positions of the kept characters of a text, in increasing order. */
  function KeptPositions(text: string): (r: seq<nat>)
    ensures forall k | 0 <= k < |r| :: r[k] < |text|
  {
    if text == [] then []
    else
      var n := |text| - 1;
      KeptPositions(text[..n]) + (if Kept(text[n]) then [n] else [])
  }

  /** `r` lists, in increasing order, exactly the positions of the kept
      characters of `text`. */
  ghost predicate ExactlyKept(text: string, r: seq<nat>)
  {
    && (forall k | 0 <= k < |r| :: r[k] < |text|)
    && (forall k, l | 0 <= k < l < |r| :: r[k] < r[l])
    && (forall i | 0 <= i < |text| :: Kept(text[i]) <==> i in r)
  }

  lemma ExactlyKeptSnoc(front: string, c: char, r0: seq<nat>)
    requires ExactlyKept(front, r0)
    ensures ExactlyKept(front + [c], r0 + (if Kept(c) then [|front|] else []))
  {
    var text, r := front + [c], r0 + (if Kept(c) then [|front|] else []);
    forall i | 0 <= i < |text| ensures Kept(text[i]) <==> i in r {
      if i < |front| {
        assert text[i] == front[i];
      }
    }
  }

  /** KeptPositions lists the kept characters, in order, and nothing else. */
  lemma {:induction false} KeptPositionsExact(text: string)
    ensures ExactlyKept(text, KeptPositions(text))
    decreases |text|
  {
    if text != [] {
      var n := |text| - 1;
      var front := text[..n];
      KeptPositionsExact(front);
      ExactlyKeptSnoc(front, text[n], KeptPositions(front));
      assert front + [text[n]] == text;
    }
  }

  /** Byte k of `key` is the byte of the character at position r[k]. */
  ghost predicate KeyLists(text: string, r: seq<nat>, key: seq<byte>)
  {
    && |key| == |r|
    && forall k | 0 <= k < |r| :: r[k] < |text| && [key[k]] == CharKey(Upper(text[r[k]]))
  }

  lemma KeyListsSnoc(front: string, c: char, r0: seq<nat>, key0: seq<byte>)
    requires KeyLists(front, r0, key0)
    ensures KeyLists(front + [c], r0 + (if Kept(c) then [|front|] else []), key0 + CharKey(Upper(c)))
  {
    var text, r, key := front + [c], r0 + (if Kept(c) then [|front|] else []), key0 + CharKey(Upper(c));
    forall k | 0 <= k < |r| ensures r[k] < |text| && [key[k]] == CharKey(Upper(text[r[k]])) {
      if k < |r0| {
        assert r[k] == r0[k] && key[k] == key0[k];
        assert text[r0[k]] == front[r0[k]];
      } else {
        assert r[k] == |front| && key[k] == CharKey(Upper(c))[0];
      }
    }
  }

  /** The key holds one byte per kept character, in the order of the kept
      positions: byte k is the byte of the k-th kept character. */
  lemma {:induction false} KeyIsKeptCharacters(text: string)
    ensures KeyLists(text, KeptPositions(text), GroupingKey(text))
    decreases |text|
  {
    if text != [] {
      var n := |text| - 1;
      var front := text[..n];
      KeyIsKeptCharacters(front);
      GroupingKeySnoc(front, text[n]);
      KeyListsSnoc(front, text[n], KeptPositions(front), GroupingKey(front));
      assert front + [text[n]] == text;
    }
  }
}

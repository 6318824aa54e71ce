/** Spreadsheet-style lane names A..Z, AA, AB, ... and their numeric key. */
module LaneNames {
  import opened Collections

  predicate Uppercase(c: char) {
    'A' <= c <= 'Z'
  }

  function Letter(digit: nat): char
    requires digit < 26
  {
    'A' + digit as char
  }

  function Digit(c: char): nat
    requires Uppercase(c)
  {
    c as int - 'A' as int
  }

  predicate IsName(s: string) {
    forall i :: 0 <= i < |s| ==> Uppercase(s[i])
  }

  /** Bijective base 26: zero is the empty word. */
  function Letters(value: nat): string {
    if value == 0 then "" else Letters((value - 1) / 26) + [Letter((value - 1) % 26)]
  }

  function Key(s: string): nat
    requires IsName(s)
  {
    if s == "" then 0 else Key(s[..|s| - 1]) * 26 + Digit(s[|s| - 1]) + 1
  }

  function Reversed(s: string): string {
    if s == "" then "" else Reversed(s[1..]) + [s[0]]
  }

  lemma {:induction false} ReversedSnoc(s: string, c: char)
    ensures Reversed(s + [c]) == [c] + Reversed(s)
  {
    if s == "" {
      assert s + [c] == [c];
    } else {
      assert (s + [c])[1..] == s[1..] + [c];
      ReversedSnoc(s[1..], c);
    }
  }

  method LaneName(index: nat) returns (name: string)
    ensures name == Letters(index + 1)
  {
    var value: nat := index + 1;
    var chars: string := "";
    while value > 0
      invariant Letters(index + 1) == Letters(value) + Reversed(chars)
    {
      var remainder := (value - 1) % 26;
      ReversedSnoc(chars, Letter(remainder));
      value := (value - 1) / 26;
      chars := chars + [Letter(remainder)];
    }
    name := Reversed(chars);
  }

  /** None stands for the error on a character outside A..Z. */
  method LaneKey(name: string) returns (key: Option<nat>)
    ensures key.Some? <==> IsName(name)
    ensures key.Some? ==> key.value == Key(name)
  {
    var result := 0;
    var i := 0;
    while i < |name|
      invariant 0 <= i <= |name| && IsName(name[..i]) && result == Key(name[..i])
    {
      if !Uppercase(name[i]) {
        return None;
      }
      assert name[..i + 1][..i] == name[..i];
      result := result * 26 + Digit(name[i]) + 1;
      i := i + 1;
    }
    assert name[..i] == name;
    return Some(result);
  }

  lemma {:induction false} KeyOfLetters(value: nat)
    ensures IsName(Letters(value)) && Key(Letters(value)) == value
  {
    if value > 0 {
      var high, low := (value - 1) / 26, (value - 1) % 26;
      KeyOfLetters(high);
      assert Letters(value)[..|Letters(high)|] == Letters(high);
    }
  }

  lemma {:induction false} LettersOfKey(s: string)
    requires IsName(s)
    ensures Letters(Key(s)) == s
  {
    if s != "" {
      var front, low := s[..|s| - 1], Digit(s[|s| - 1]);
      LettersOfKey(front);
      assert (Key(s) - 1) / 26 == Key(front) && (Key(s) - 1) % 26 == low;
      assert Letter(low) == s[|s| - 1];
      assert s == front + [s[|s| - 1]];
    }
  }

  /** Sorting by key is sorting by lane index, and no two lanes share a name. */
  lemma NamesAreDistinct(i: nat, j: nat)
    ensures Letters(i + 1) == Letters(j + 1) ==> i == j
    ensures Letters(i + 1) != ""
  {
    KeyOfLetters(i + 1);
    KeyOfLetters(j + 1);
  }
}

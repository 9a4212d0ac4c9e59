/**
 * The text handling of concordance.py, restricted to ASCII: Python's
 * str.strip, str.lower, str.split and str.replace as functions, and
 * Concordance.process_line as a method with its loop, proved to delete every
 * apostrophe and turn every other punctuation character into a space.
 */
module Text {

  /** Python's str.isspace on ASCII: space, \t, \n, \v, \f, \r and \x1c..\x1f. */
  predicate IsSpace(c: char)
  {
    var n := c as int;
    n == 32 || 9 <= n <= 13 || 28 <= n <= 31
  }

  /**
   * Python's string.punctuation: the 32 ASCII characters ! " # $ % & ' ( ) * +
   * , - . / (33..47), : ; < = > ? @ (58..64), [ \ ] ^ _ ` (91..96) and { | } ~
   * (123..126).
   */
  predicate IsPunct(c: char)
  {
    var n := c as int;
    33 <= n <= 47 || 58 <= n <= 64 || 91 <= n <= 96 || 123 <= n <= 126
  }

  /** str.lower on ASCII letters. */
  function LowerChar(c: char): char
  {
    if 'A' <= c <= 'Z' then (c as int + 32) as char else c
  }

  function Lower(s: string): (r: string)
    ensures |r| == |s|
  {
    if s == [] then [] else [LowerChar(s[0])] + Lower(s[1..])
  }

  function StripLeft(s: string): (r: string)
    ensures |r| <= |s|
  {
    if s != [] && IsSpace(s[0]) then StripLeft(s[1..]) else s
  }

  function StripRight(s: string): (r: string)
    ensures |r| <= |s|
  {
    if s != [] && IsSpace(s[|s| - 1]) then StripRight(s[..|s| - 1]) else s
  }

  /** str.strip(): drop leading and trailing whitespace. */
  function Strip(s: string): string
  {
    StripRight(StripLeft(s))
  }

  /** lstrip drops exactly the leading whitespace. */
  lemma {:induction false} StripLeftDrops(s: string)
    ensures StripLeft(s) == s[|s| - |StripLeft(s)|..]
    ensures StripLeft(s) != [] ==> !IsSpace(StripLeft(s)[0])
    ensures forall i :: 0 <= i < |s| - |StripLeft(s)| ==> IsSpace(s[i])
  {
    if s != [] && IsSpace(s[0]) {
      StripLeftDrops(s[1..]);
    }
  }

  /** rstrip drops exactly the trailing whitespace. */
  lemma {:induction false} StripRightDrops(s: string)
    ensures StripRight(s) == s[..|StripRight(s)|]
    ensures StripRight(s) != [] ==> !IsSpace(StripRight(s)[|StripRight(s)| - 1])
    ensures forall i :: |StripRight(s)| <= i < |s| ==> IsSpace(s[i])
  {
    if s != [] && IsSpace(s[|s| - 1]) {
      StripRightDrops(s[..|s| - 1]);
    }
  }

  /**
   * strip() keeps a slice s[a..b] of s that neither starts nor ends with
   * whitespace, and everything it drops is whitespace.
   */
  lemma StripDrops(s: string) returns (a: nat, b: nat)
    ensures a <= b <= |s| && Strip(s) == s[a..b]
    ensures Strip(s) != [] ==> !IsSpace(Strip(s)[0]) && !IsSpace(Strip(s)[|Strip(s)| - 1])
    ensures forall i :: 0 <= i < a || b <= i < |s| ==> IsSpace(s[i])
  {
    var l := StripLeft(s);
    StripLeftDrops(s);
    StripRightDrops(l);
    a := |s| - |l|;
    b := a + |Strip(s)|;
    assert Strip(s) == l[..|Strip(s)|];
    forall i | b <= i < |s|
      ensures IsSpace(s[i])
    {
      assert s[i] == l[i - a];
    }
  }

  /** A token of str.split(): non-empty, without whitespace. */
  predicate IsToken(w: string)
  {
    w != [] && forall i :: 0 <= i < |w| ==> !IsSpace(w[i])
  }

  /** The length of the run of non-whitespace characters that starts s. */
  function TokenLength(s: string): (n: nat)
    ensures n <= |s|
    ensures forall i :: 0 <= i < n ==> !IsSpace(s[i])
  {
    if s == [] || IsSpace(s[0]) then 0 else 1 + TokenLength(s[1..])
  }

  /** str.split() with no separator: the maximal runs of non-whitespace characters. */
  function Split(s: string): seq<string>
    decreases |s|
  {
    if s == [] then []
    else if IsSpace(s[0]) then Split(s[1..])
    else
      var n := TokenLength(s);
      [s[..n]] + Split(s[n..])
  }

  /** Every word split() returns is a token. */
  lemma {:induction false} SplitTokens(s: string)
    ensures forall w :: w in Split(s) ==> IsToken(w)
    decreases |s|
  {
    if s != [] {
      if IsSpace(s[0]) {
        SplitTokens(s[1..]);
      } else {
        SplitTokens(s[TokenLength(s)..]);
      }
    }
  }

  /** Every character of a split token is a character of the split string. */
  lemma {:induction false} SplitCharacters(s: string)
    ensures forall w, c :: w in Split(s) && c in w ==> c in s
    decreases |s|
  {
    if s != [] {
      if IsSpace(s[0]) {
        SplitCharacters(s[1..]);
      } else {
        var n := TokenLength(s);
        SplitCharacters(s[n..]);
      }
    }
  }

  /** The words of ws written one after the other. */
  function Concat(ws: seq<string>): string
  {
    if ws == [] then [] else ws[0] + Concat(ws[1..])
  }

  /** The characters of s that are not whitespace, in order. */
  function NonSpace(s: string): string
  {
    if s == [] then [] else (if IsSpace(s[0]) then [] else [s[0]]) + NonSpace(s[1..])
  }

  lemma {:induction false} NonSpacePrefix(s: string, n: nat)
    requires n <= |s| && forall i :: 0 <= i < n ==> !IsSpace(s[i])
    ensures NonSpace(s) == s[..n] + NonSpace(s[n..])
    decreases n
  {
    if n > 0 {
      NonSpacePrefix(s[1..], n - 1);
      assert s[1..][n - 1..] == s[n..];
      assert [s[0]] + s[1..][..n - 1] == s[..n];
    }
  }

  /**
   * split() loses no character but whitespace: its tokens, written one
   * after the other, are exactly the non-whitespace characters of s.
   */
  lemma {:induction false} SplitKeepsNonSpace(s: string)
    ensures Concat(Split(s)) == NonSpace(s)
    decreases |s|
  {
    if s != [] {
      if IsSpace(s[0]) {
        SplitKeepsNonSpace(s[1..]);
      } else {
        var n := TokenLength(s);
        var rest := Split(s[n..]);
        SplitKeepsNonSpace(s[n..]);
        NonSpacePrefix(s, n);
        assert ([s[..n]] + rest)[0] == s[..n] && ([s[..n]] + rest)[1..] == rest;
      }
    }
  }

  /** Stripping a split token changes nothing. */
  lemma StripToken(w: string)
    requires IsToken(w)
    ensures Strip(w) == w
  {
    assert StripLeft(w) == w;
    assert StripRight(w) == w;
  }

  /** str.replace(c, r) for a single character c. */
  function Replace(s: string, c: char, r: string): string
  {
    if s == [] then [] else (if s[0] == c then r else [s[0]]) + Replace(s[1..], c, r)
  }

  /** What process_line turns a character into once that character has been handled. */
  function Cleaned(c: char): string
  {
    if c == '\'' then "" else if IsPunct(c) then " " else [c]
  }

  /** The specification of process_line's loop: every character cleaned. */
  function Clean(s: string): string
  {
    if s == [] then [] else Cleaned(s[0]) + Clean(s[1..])
  }

  /** process_line: strip, lower-case, delete apostrophes, other punctuation to spaces. */
  function ProcessedLine(line: string): string
  {
    Clean(Lower(Strip(line)))
  }

  /** The state of process_line's word after the characters in done were handled. */
  function Partial(s: string, done: seq<char>): string
  {
    if s == [] then [] else Handled(s[0], done) + Partial(s[1..], done)
  }

  /** A character, cleaned when it is in done. */
  function Handled(x: char, done: seq<char>): string
  {
    if x in done then Cleaned(x) else [x]
  }

  lemma ReplaceSingle(x: char, c: char, r: string)
    ensures Replace([x], c, r) == if x == c then r else [x]
  {
    assert [x][1..] == [];
  }

  /** Replacing punctuation character c handles c in one character's result. */
  lemma ReplaceHandled(x: char, done: seq<char>, c: char)
    requires IsPunct(c)
    ensures Replace(Handled(x, done), c, Cleaned(c)) == Handled(x, done + [c])
  {
    if x in done {
      if x == '\'' {
      } else if IsPunct(x) {
        ReplaceSingle(' ', c, Cleaned(c));
      } else {
        ReplaceSingle(x, c, Cleaned(c));
      }
    } else {
      ReplaceSingle(x, c, Cleaned(c));
    }
  }

  lemma {:induction false} ReplaceAppend(a: string, b: string, c: char, r: string)
    ensures Replace(a + b, c, r) == Replace(a, c, r) + Replace(b, c, r)
  {
    if a == [] {
      assert a + b == b;
    } else {
      assert (a + b)[0] == a[0] && (a + b)[1..] == a[1..] + b;
      ReplaceAppend(a[1..], b, c, r);
    }
  }

  /**
   * One iteration of process_line's loop: replacing punctuation character
   * c in the partial word by its cleaned form handles c everywhere.
   */
  lemma {:induction false} ReplaceHandles(s: string, done: seq<char>, c: char)
    requires IsPunct(c)
    ensures Replace(Partial(s, done), c, Cleaned(c)) == Partial(s, done + [c])
  {
    if s != [] {
      ReplaceAppend(Handled(s[0], done), Partial(s[1..], done), c, Cleaned(c));
      ReplaceHandles(s[1..], done, c);
      ReplaceHandled(s[0], done, c);
    }
  }

  /** A handled apostrophe no longer occurs, so replacing it again changes nothing. */
  lemma {:induction false} ReplaceHandledApostrophe(s: string, done: seq<char>, r: string)
    requires '\'' in done
    ensures Replace(Partial(s, done), '\'', r) == Partial(s, done)
  {
    if s != [] {
      var head := Handled(s[0], done);
      ReplaceAppend(head, Partial(s[1..], done), '\'', r);
      ReplaceHandledApostrophe(s[1..], done, r);
      if head != [] {
        assert |head| == 1 && head[0] != '\'';
        assert head == [head[0]];
        ReplaceSingle(head[0], '\'', r);
      }
    }
  }

  /** Handling a character that is not punctuation changes nothing. */
  lemma {:induction false} HandleOther(s: string, done: seq<char>, c: char)
    requires !IsPunct(c)
    ensures Partial(s, done + [c]) == Partial(s, done)
  {
    if s != [] {
      HandleOther(s[1..], done, c);
    }
  }

  /** Once every character of s has been handled, the word is Clean(s). */
  lemma {:induction false} PartialComplete(s: string, done: seq<char>)
    requires forall c :: c in s ==> c in done
    ensures Partial(s, done) == Clean(s)
  {
    if s != [] {
      PartialComplete(s[1..], done);
    }
  }

  /**
   * process_line: the loop visits each character of the stripped,
   * lower-cased line and, for an apostrophe, deletes all apostrophes and,
   * for any punctuation character, replaces all its occurrences by a space.
   */
  method ProcessLine(line: string) returns (word: string)
    ensures word == ProcessedLine(line)
  {
    word := Lower(Strip(line));
    var chars := word;
    HandleNothing(chars);
    for i := 0 to |chars|
      invariant word == Partial(chars, chars[..i])
    {
      var c := chars[i];
      ghost var done := chars[..i];
      assert chars[..i + 1] == done + [c];
      if c == '\'' {
        word := Replace(word, c, "");
        ReplaceHandles(chars, done, c);
      }
      if IsPunct(c) {
        word := Replace(word, c, " ");
        if c == '\'' {
          ReplaceHandledApostrophe(chars, done + [c], " ");
        } else {
          ReplaceHandles(chars, done, c);
        }
      } else {
        HandleOther(chars, done, c);
      }
    }
    assert chars[..|chars|] == chars;
    PartialComplete(chars, chars);
  }

  lemma {:induction false} HandleNothing(s: string)
    ensures Partial(s, []) == s
  {
    if s != [] {
      HandleNothing(s[1..]);
    }
  }

  /** The number of apostrophes in s. */
  function Apostrophes(s: string): nat
  {
    if s == [] then 0 else (if s[0] == '\'' then 1 else 0) + Apostrophes(s[1..])
  }

  lemma {:induction false} CleanLength(s: string)
    ensures |Clean(s)| == |s| - Apostrophes(s)
    ensures Apostrophes(s) <= |s|
  {
    if s != [] {
      CleanLength(s[1..]);
    }
  }

  lemma {:induction false} LowerKeepsApostrophes(s: string)
    ensures Apostrophes(Lower(s)) == Apostrophes(s)
  {
    if s != [] {
      assert Lower(s)[1..] == Lower(s[1..]);
      LowerKeepsApostrophes(s[1..]);
    }
  }

  /** The processed line is as long as the stripped line less its apostrophes. */
  lemma ProcessedLineLength(line: string)
    ensures |ProcessedLine(line)| == |Strip(line)| - Apostrophes(Strip(line))
  {
    CleanLength(Lower(Strip(line)));
    LowerKeepsApostrophes(Strip(line));
  }

  lemma {:induction false} CleanCharacters(s: string)
    ensures forall i :: 0 <= i < |Clean(s)| ==> !IsPunct(Clean(s)[i]) && (Clean(s)[i] == ' ' || Clean(s)[i] in s)
  {
    if s != [] {
      CleanCharacters(s[1..]);
      assert !IsPunct(' ');
    }
  }

  predicate IsUpper(c: char)
  {
    'A' <= c <= 'Z'
  }

  lemma {:induction false} LowerHasNoUpper(s: string)
    ensures forall c :: c in Lower(s) ==> !IsUpper(c)
  {
    if s != [] {
      LowerHasNoUpper(s[1..]);
    }
  }

  /** A character of a processed line is never punctuation and never an upper-case letter. */
  lemma ProcessedLineCharacters(line: string)
    ensures forall i :: 0 <= i < |ProcessedLine(line)| ==> !IsPunct(ProcessedLine(line)[i]) && !IsUpper(ProcessedLine(line)[i])
  {
    CleanCharacters(Lower(Strip(line)));
    LowerHasNoUpper(Strip(line));
  }
}

/**
 * The string normaliser `pre_process_string` of src/Tools.py: a fixed
 * pipeline of single-character regex substitutions, a collapse of space
 * runs, three strips, lower-casing and a final strip, with the empty result
 * mapped to `None`.
 *
 * Inputs are restricted to ASCII text, on which `unidecode` is the identity.
 */
module Tools {
  import opened Wrappers
  import opened Sequences

  /** A value handed to the normaliser: text, a Python int, or a Python float (NaN included). */
  datatype Cell = Text(s: string) | Int(i: int) | Float

  predicate IsAscii(s: string)
  {
    forall i :: 0 <= i < |s| ==> s[i] as int < 128
  }

  /** Python's `str.isspace` on ASCII: HT, LF, VT, FF, CR, the four separators FS..US, and space. */
  predicate IsSpace(c: char)
  {
    9 <= c as int <= 13 || 28 <= c as int <= 32
  }

  /** The argument of `str.strip`: none, which strips whitespace, or the characters to strip. */
  datatype StripChars = AnyWhitespace | Chars(cs: set<char>)

  predicate Strips(chars: StripChars, c: char)
  {
    match chars
    case AnyWhitespace => IsSpace(c)
    case Chars(cs) => c in cs
  }

  /** The characters that the substitutions turn into a space. */
  const Separators: set<char> := {'\n', '/', ':'}

  /** The characters that the substitutions delete. */
  const Deleted: set<char> := {'-', '\'', ','}

  /** Every character a substitution rewrites; none of them survives the pipeline. */
  const Rewritten: set<char> := Separators + Deleted

  /** Characters that the pipeline can drop from a string: rewritten ones, whitespace and the double quote. */
  predicate IsBlank(c: char)
  {
    c in Rewritten || IsSpace(c) || c == '"'
  }

  predicate IsUpper(c: char)
  {
    'A' <= c <= 'Z'
  }

  ghost predicate NoDoubleSpace(s: string)
  {
    forall i, j :: 0 <= i < j < |s| && j == i + 1 ==> !(s[i] == ' ' && s[j] == ' ')
  }

  // ---------------------------------------------------------------------------
  // re.sub with a one-character pattern
  // ---------------------------------------------------------------------------

  /** `re.sub(c, rep, s)`: every occurrence of the character `c` is replaced by `rep`. */
  function Substitute(s: string, c: char, rep: string): (r: string)
    ensures |rep| <= 1 ==> |r| <= |s|
    ensures c !in rep ==> c !in r
  {
    if s == [] then [] else (if s[0] == c then rep else [s[0]]) + Substitute(s[1..], c, rep)
  }

  /** After the substitution `c` is gone unless `rep` brings it back, and every other character stays. */
  lemma {:induction false} SubstituteMember(s: string, c: char, rep: string, x: char)
    ensures x in Substitute(s, c, rep) ==> (x in s && x != c) || x in rep
    ensures x in s && x != c ==> x in Substitute(s, c, rep)
  {
    if s != [] {
      SubstituteMember(s[1..], c, rep, x);
      assert x in s ==> x == s[0] || x in s[1..];
    }
  }

  lemma {:induction false} SubstituteAppend(a: string, b: string, c: char, rep: string)
    ensures Substitute(a + b, c, rep) == Substitute(a, c, rep) + Substitute(b, c, rep)
  {
    if a != [] {
      assert (a + b)[1..] == a[1..] + b;
      SubstituteAppend(a[1..], b, c, rep);
    } else {
      assert a + b == b;
    }
  }

  /**
   * The six substitutions, in source order: newline to space, `-` deleted,
   * `/` to space, `'` deleted, `,` deleted, `:` to space.
   */
  function Rewrite(s: string): (r: string)
    ensures |r| <= |s|
    ensures ':' !in r
  {
    Substitute(Substitute(Substitute(Substitute(Substitute(Substitute(s, '\n', " "), '-', ""), '/', " "), '\'', ""), ',', ""), ':', " ")
  }

  /** What the substitutions do to one character, taken on its own. */
  function RewriteChar(c: char): string
  {
    if c in Separators then " " else if c in Deleted then "" else [c]
  }

  /** The reference reading of the substitutions: each character is rewritten independently. */
  function RewriteEach(s: string): string
  {
    if s == [] then [] else RewriteChar(s[0]) + RewriteEach(s[1..])
  }

  lemma RewriteAppend(a: string, b: string)
    ensures Rewrite(a + b) == Rewrite(a) + Rewrite(b)
  {
    SubstituteAppend(a, b, '\n', " ");
    var a1, b1 := Substitute(a, '\n', " "), Substitute(b, '\n', " ");
    SubstituteAppend(a1, b1, '-', "");
    var a2, b2 := Substitute(a1, '-', ""), Substitute(b1, '-', "");
    SubstituteAppend(a2, b2, '/', " ");
    var a3, b3 := Substitute(a2, '/', " "), Substitute(b2, '/', " ");
    SubstituteAppend(a3, b3, '\'', "");
    var a4, b4 := Substitute(a3, '\'', ""), Substitute(b3, '\'', "");
    SubstituteAppend(a4, b4, ',', "");
    var a5, b5 := Substitute(a4, ',', ""), Substitute(b4, ',', "");
    SubstituteAppend(a5, b5, ':', " ");
  }

  /**
   * The pipeline of substitutions acts character by character: `/`, `:` and
   * newline become a space, `-`, `'` and `,` vanish, everything else stays.
   * No substitution's output is touched by a later one.
   */
  lemma {:induction false} RewriteIsPerCharacter(s: string)
    ensures Rewrite(s) == RewriteEach(s)
  {
    if s != [] {
      assert s == [s[0]] + s[1..];
      RewriteAppend([s[0]], s[1..]);
      RewriteSingle(s[0]);
      RewriteIsPerCharacter(s[1..]);
    }
  }

  /** A character is in the per-character rewrite exactly when it is an untouched input character or a space some separator became. */
  lemma {:induction false} RewriteEachMember(s: string, x: char)
    ensures x in RewriteEach(s) ==> x !in Rewritten && (x in s || x == ' ')
    ensures x in s && x !in Rewritten ==> x in RewriteEach(s)
  {
    if s != [] {
      RewriteEachMember(s[1..], x);
      assert x in s ==> x == s[0] || x in s[1..];
    }
  }

  /**
   * After the six substitutions none of newline, `-`, `/`, `'`, `,`, `:` is
   * left, every character was in the input or is a space, and every other
   * input character survives.
   */
  lemma RewriteCharacters(s: string)
    ensures forall x :: x in Rewrite(s) ==> x !in Rewritten
    ensures forall x :: x in Rewrite(s) ==> x in s || x == ' '
    ensures forall x :: x in s && x !in Rewritten ==> x in Rewrite(s)
  {
    RewriteIsPerCharacter(s);
    forall x
      ensures x in RewriteEach(s) ==> x !in Rewritten && (x in s || x == ' ')
      ensures x in s && x !in Rewritten ==> x in RewriteEach(s)
    {
      RewriteEachMember(s, x);
    }
  }

  lemma SubstituteSingle(x: char, c: char, rep: string)
    ensures Substitute([x], c, rep) == if x == c then rep else [x]
  {
    assert [x][1..] == [];
  }

  lemma SubstituteUntouched(s: string, c: char, rep: string)
    requires c !in s
    ensures Substitute(s, c, rep) == s
  {
    if s != [] {
      SubstituteSingle(s[0], c, rep);
      assert s == [s[0]] + s[1..];
      SubstituteAppend([s[0]], s[1..], c, rep);
      SubstituteUntouched(s[1..], c, rep);
    }
  }

  lemma RewriteSingle(x: char)
    ensures Rewrite([x]) == RewriteChar(x)
  {
    if x in Separators {
      var s1 := Substitute([x], '\n', " ");
      SubstituteSingle(x, '\n', " ");
      if x == '\n' {
        SubstituteUntouched(" ", '-', "");
        SubstituteUntouched(" ", '/', " ");
        SubstituteUntouched(" ", '\'', "");
        SubstituteUntouched(" ", ',', "");
        SubstituteUntouched(" ", ':', " ");
      } else {
        SubstituteUntouched([x], '-', "");
        SubstituteSingle(x, '/', " ");
        if x == '/' {
          SubstituteUntouched(" ", '\'', "");
          SubstituteUntouched(" ", ',', "");
          SubstituteUntouched(" ", ':', " ");
        } else {
          SubstituteUntouched([x], '\'', "");
          SubstituteUntouched([x], ',', "");
          SubstituteSingle(x, ':', " ");
        }
      }
    } else if x in Deleted {
      SubstituteUntouched([x], '\n', " ");
      SubstituteSingle(x, '-', "");
      if x == '-' {
        SubstituteUntouched("", '/', " ");
        SubstituteUntouched("", '\'', "");
        SubstituteUntouched("", ',', "");
        SubstituteUntouched("", ':', " ");
      } else {
        SubstituteUntouched([x], '/', " ");
        SubstituteSingle(x, '\'', "");
        if x == '\'' {
          SubstituteUntouched("", ',', "");
          SubstituteUntouched("", ':', " ");
        } else {
          SubstituteSingle(x, ',', "");
          SubstituteUntouched("", ':', " ");
        }
      }
    } else {
      SubstituteUntouched([x], '\n', " ");
      SubstituteUntouched([x], '-', "");
      SubstituteUntouched([x], '/', " ");
      SubstituteUntouched([x], '\'', "");
      SubstituteUntouched([x], ',', "");
      SubstituteUntouched([x], ':', " ");
    }
  }

  // ---------------------------------------------------------------------------
  // re.sub('  +', ' ', s)
  // ---------------------------------------------------------------------------

  /** Every maximal run of two or more spaces becomes a single space. */
  function CollapseSpaces(s: string): (r: string)
    ensures NoDoubleSpace(r)
    ensures |r| <= |s|
    ensures s != [] ==> r != [] && r[0] == s[0]
    ensures forall x :: x in r ==> x in s
    ensures forall x :: x in s && x != ' ' ==> x in r
  {
    if s == [] then []
    else if |s| >= 2 && s[0] == ' ' && s[1] == ' ' then
      var r := CollapseSpaces(s[1..]);
      assert forall x :: x in s ==> x == s[0] || x in s[1..];
      r
    else
      var tail := CollapseSpaces(s[1..]);
      assert forall x :: x in s ==> x == s[0] || x in s[1..];
      assert |s| >= 2 ==> tail[0] == s[1];
      [s[0]] + tail
  }

  /** The string with every space removed. */
  function NonSpaces(s: string): string
  {
    if s == [] then [] else (if s[0] == ' ' then [] else [s[0]]) + NonSpaces(s[1..])
  }

  /** Collapsing removes spaces only: the non-space characters are the same, in the same order. */
  lemma {:induction false} CollapseKeepsNonSpaces(s: string)
    ensures NonSpaces(CollapseSpaces(s)) == NonSpaces(s)
  {
    if s != [] {
      CollapseKeepsNonSpaces(s[1..]);
      if !(|s| >= 2 && s[0] == ' ' && s[1] == ' ') {
        assert ([s[0]] + CollapseSpaces(s[1..]))[1..] == CollapseSpaces(s[1..]);
      }
    }
  }

  /** A string without double spaces is left as it is. */
  lemma {:induction false} CollapseFixesSingleSpaced(s: string)
    requires NoDoubleSpace(s)
    ensures CollapseSpaces(s) == s
  {
    if s != [] {
      assert NoDoubleSpace(s[1..]) by {
        forall i | 0 <= i < |s[1..]| - 1 ensures !(s[1..][i] == ' ' && s[1..][i + 1] == ' ') {
          assert s[1..][i] == s[i + 1] && s[1..][i + 1] == s[i + 2];
        }
      }
      CollapseFixesSingleSpaced(s[1..]);
      assert !(|s| >= 2 && s[0] == ' ' && s[1] == ' ');
    }
  }

  /** Collapsing twice is collapsing once. */
  lemma CollapseIdempotent(s: string)
    ensures CollapseSpaces(CollapseSpaces(s)) == CollapseSpaces(s)
  {
    CollapseFixesSingleSpaced(CollapseSpaces(s));
  }

  /** `n` spaces. */
  function Spaces(n: nat): (r: string)
    ensures |r| == n
    ensures forall x :: x in r ==> x == ' '
  {
    if n == 0 then [] else [' '] + Spaces(n - 1)
  }

  /** Collapsing works piece by piece when the first piece does not end in a space. */
  lemma {:induction false} CollapseAppend(a: string, b: string)
    requires a == [] || a[|a| - 1] != ' '
    ensures CollapseSpaces(a + b) == CollapseSpaces(a) + CollapseSpaces(b)
  {
    if a == [] {
      assert a + b == b;
    } else {
      assert (a + b)[1..] == a[1..] + b;
      if |a| == 1 {
        assert a[1..] == [] && a[1..] + b == b;
        assert CollapseSpaces(a) == [a[0]];
      } else {
        assert (a + b)[1] == a[1];
        assert a[1..][|a[1..]| - 1] == a[|a| - 1];
        CollapseAppend(a[1..], b);
        if !(a[0] == ' ' && a[1] == ' ') {
          assert [a[0]] + (CollapseSpaces(a[1..]) + CollapseSpaces(b))
              == ([a[0]] + CollapseSpaces(a[1..])) + CollapseSpaces(b);
        }
      }
    }
  }

  /** A run of spaces in front of text that does not start with a space becomes one space. */
  lemma {:induction false} CollapseLeadingRun(n: nat, y: string)
    requires n >= 1 && (y == [] || y[0] != ' ')
    ensures CollapseSpaces(Spaces(n) + y) == " " + CollapseSpaces(y)
  {
    var s := Spaces(n) + y;
    assert s[0] == ' ' && s[1..] == Spaces(n - 1) + y;
    if n == 1 {
      assert Spaces(0) == [] && s[1..] == y;
      assert |s| >= 2 ==> s[1] == y[0];
    } else {
      assert Spaces(n - 1)[0] in Spaces(n - 1);
      assert s[1] == ' ';
      CollapseLeadingRun(n - 1, y);
    }
  }

  /**
   * A run of one or more spaces between text that does not end in a space and
   * text that does not start with one becomes exactly one space.
   */
  lemma CollapseRun(x: string, n: nat, y: string)
    requires n >= 1
    requires x == [] || x[|x| - 1] != ' '
    requires y == [] || y[0] != ' '
    ensures CollapseSpaces(x + Spaces(n) + y) == CollapseSpaces(x) + " " + CollapseSpaces(y)
  {
    ConcatAssociates(x, Spaces(n), y);
    CollapseAppend(x, Spaces(n) + y);
    CollapseLeadingRun(n, y);
    ConcatAssociates(CollapseSpaces(x), " ", CollapseSpaces(y));
  }

  // ---------------------------------------------------------------------------
  // str.strip(chars)
  // ---------------------------------------------------------------------------

  /**
   * `s.strip(chars)`: the characters to strip are removed from the front
   * while there is one, then from the back.
   */
  function Strip(s: string, chars: StripChars): (r: string)
    ensures |r| <= |s|
    ensures r != [] ==> !Strips(chars, r[0]) && !Strips(chars, r[|r| - 1])
    ensures forall x :: x in r ==> x in s
    ensures forall x :: x in s && !Strips(chars, x) ==> x in r
    decreases |s|
  {
    if s != [] && Strips(chars, s[0]) then
      assert forall x :: x in s && x != s[0] ==> x in s[1..];
      Strip(s[1..], chars)
    else if s != [] && Strips(chars, s[|s| - 1]) then
      assert forall x :: x in s && x != s[|s| - 1] ==> x in s[..|s| - 1];
      Strip(s[..|s| - 1], chars)
    else
      s
  }

  /** `Strip(s, chars)` is `s[i..i + |r|]`, with only characters to strip before and after it. */
  ghost predicate StrippedSlice(s: string, chars: StripChars, r: string, i: nat)
  {
    i + |r| <= |s| && r == s[i..i + |r|] &&
    (forall k :: 0 <= k < i ==> Strips(chars, s[k])) &&
    (forall k :: i + |r| <= k < |s| ==> Strips(chars, s[k]))
  }

  /** Only characters to strip are removed, and only from the two ends: the result is a slice of `s`. */
  lemma {:induction false} StripIsSlice(s: string, chars: StripChars) returns (i: nat)
    ensures StrippedSlice(s, chars, Strip(s, chars), i)
    decreases |s|
  {
    if s != [] && Strips(chars, s[0]) {
      var j := StripIsSlice(s[1..], chars);
      i := SliceAfterFront(s, chars, Strip(s, chars), j);
    } else if s != [] && Strips(chars, s[|s| - 1]) {
      i := StripIsSlice(s[..|s| - 1], chars);
      SliceAfterBack(s, chars, Strip(s, chars), i);
    } else {
      i := 0;
      assert s[0..|s|] == s;
    }
  }

  lemma SliceAfterFront(s: string, chars: StripChars, r: string, j: nat) returns (i: nat)
    requires s != [] && Strips(chars, s[0]) && StrippedSlice(s[1..], chars, r, j)
    ensures i == j + 1 && StrippedSlice(s, chars, r, i)
  {
    i := j + 1;
    assert s[1..][j..j + |r|] == s[i..i + |r|];
    forall k | 0 < k < i ensures Strips(chars, s[k]) {
      assert s[k] == s[1..][k - 1];
    }
    forall k | i + |r| <= k < |s| ensures Strips(chars, s[k]) {
      assert s[k] == s[1..][k - 1];
    }
  }

  lemma SliceAfterBack(s: string, chars: StripChars, r: string, i: nat)
    requires s != [] && Strips(chars, s[|s| - 1]) && StrippedSlice(s[..|s| - 1], chars, r, i)
    ensures StrippedSlice(s, chars, r, i)
  {
    var t := s[..|s| - 1];
    assert t[i..i + |r|] == s[i..i + |r|];
    forall k | 0 <= k < i ensures Strips(chars, s[k]) {
      assert s[k] == t[k];
    }
    forall k | i + |r| <= k < |s| - 1 ensures Strips(chars, s[k]) {
      assert s[k] == t[k];
    }
  }

  /** A string whose ends are not stripped is returned as it is. */
  lemma StripKeepsKeptEnds(s: string, chars: StripChars)
    requires s != [] && !Strips(chars, s[0]) && !Strips(chars, s[|s| - 1])
    ensures Strip(s, chars) == s
  {
  }

  lemma StripKeepsSingleSpacing(s: string, chars: StripChars)
    requires NoDoubleSpace(s)
    ensures NoDoubleSpace(Strip(s, chars))
  {
    var r := Strip(s, chars);
    var k := StripIsSlice(s, chars);
    forall i | 0 <= i < |r| - 1 ensures !(r[i] == ' ' && r[i + 1] == ' ') {
      assert r[i] == s[k + i] && r[i + 1] == s[k + i + 1];
    }
  }

  // ---------------------------------------------------------------------------
  // str.lower
  // ---------------------------------------------------------------------------

  /** ASCII lower-casing of one character. */
  function LowerChar(c: char): (d: char)
    ensures !IsUpper(d)
    ensures !IsUpper(c) ==> d == c
    ensures IsUpper(c) ==> 'a' <= d <= 'z' && d as int - 'a' as int == c as int - 'A' as int
  {
    if IsUpper(c) then (c as int + 32) as char else c
  }

  function Lower(s: string): (r: string)
    ensures |r| == |s|
    ensures forall i :: 0 <= i < |s| ==> r[i] == LowerChar(s[i])
  {
    if s == [] then [] else [LowerChar(s[0])] + Lower(s[1..])
  }

  /** Lower-casing leaves no upper-case letter, adds no other character and keeps spaces where they were. */
  lemma LowerProperties(s: string)
    ensures forall x :: x in Lower(s) ==> !IsUpper(x)
    ensures (forall x :: x in s ==> x !in Rewritten) ==> forall x :: x in Lower(s) ==> x !in Rewritten
    ensures NoDoubleSpace(s) ==> NoDoubleSpace(Lower(s))
  {
    if forall x :: x in s ==> x !in Rewritten {
      forall x | x in Lower(s) ensures x !in Rewritten {
        var i :| 0 <= i < |s| && Lower(s)[i] == x;
        assert s[i] in s;
      }
    }
  }

  lemma LowerCharKeepsNonWhitespace(c: char)
    requires !IsSpace(c)
    ensures !IsSpace(LowerChar(c))
  {
    if IsUpper(c) {
      assert 'a' <= LowerChar(c) <= 'z';
    }
  }

  lemma LowerKeeps(s: string, x: char)
    requires x in s
    ensures LowerChar(x) in Lower(s)
  {
    var i :| 0 <= i < |s| && s[i] == x;
    assert Lower(s)[i] == LowerChar(x);
  }

  // ---------------------------------------------------------------------------
  // The pipeline
  // ---------------------------------------------------------------------------

  /** The text the normaliser starts from: numbers (int or float, NaN included) become the empty string. */
  function InputText(value: Cell): (r: string)
    ensures value.Text? || r == []
  {
    if value.Text? then value.s else ""
  }

  /**
   * `.strip().strip('"').strip("'").lower().strip()`. The strip with `'`
   * comes after every `'` was deleted and never removes anything in the
   * pipeline; it is kept as written.
   */
  function Trim(s: string): (r: string)
    ensures r != [] ==> !IsSpace(r[0]) && !IsSpace(r[|r| - 1])
    ensures forall x :: x in r ==> !IsUpper(x)
    ensures (forall x :: x in s ==> x !in Rewritten) ==> forall x :: x in r ==> x !in Rewritten
    ensures NoDoubleSpace(s) ==> NoDoubleSpace(r)
  {
    TrimSpacing(s, Strip(Strip(Strip(s, AnyWhitespace), Chars({'"'})), Chars({'\''})),
                Strip(Lower(Strip(Strip(Strip(s, AnyWhitespace), Chars({'"'})), Chars({'\''}))), AnyWhitespace));
    TrimAddsNoRewritten(s, Strip(Strip(Strip(s, AnyWhitespace), Chars({'"'})), Chars({'\''})),
                        Strip(Lower(Strip(Strip(Strip(s, AnyWhitespace), Chars({'"'})), Chars({'\''}))), AnyWhitespace));
    Strip(Lower(Strip(Strip(Strip(s, AnyWhitespace), Chars({'"'})), Chars({'\''}))), AnyWhitespace)
  }

  lemma TrimSpacing(s: string, s3: string, r: string)
    requires s3 == Strip(Strip(Strip(s, AnyWhitespace), Chars({'"'})), Chars({'\''})) && r == Strip(Lower(s3), AnyWhitespace)
    ensures forall x :: x in r ==> !IsUpper(x)
    ensures NoDoubleSpace(s) ==> NoDoubleSpace(r)
  {
    LowerProperties(s3);
    if NoDoubleSpace(s) {
      var s1 := Strip(s, AnyWhitespace);
      StripKeepsSingleSpacing(s, AnyWhitespace);
      StripKeepsSingleSpacing(s1, Chars({'"'}));
      StripKeepsSingleSpacing(Strip(s1, Chars({'"'})), Chars({'\''}));
      StripKeepsSingleSpacing(Lower(s3), AnyWhitespace);
    }
  }

  lemma TrimAddsNoRewritten(s: string, s3: string, r: string)
    requires s3 == Strip(Strip(Strip(s, AnyWhitespace), Chars({'"'})), Chars({'\''})) && r == Strip(Lower(s3), AnyWhitespace)
    ensures (forall x :: x in s ==> x !in Rewritten) ==> forall x :: x in r ==> x !in Rewritten
  {
    LowerProperties(s3);
  }

  /** A character that is neither whitespace nor a quote survives the strips, lower-cased. */
  lemma TrimKeeps(s: string, x: char)
    requires x in s && !IsSpace(x) && x != '"' && x != '\''
    ensures LowerChar(x) in Trim(s)
  {
    var s3 := Strip(Strip(Strip(s, AnyWhitespace), Chars({'"'})), Chars({'\''}));
    var s1 := Strip(s, AnyWhitespace);
    var s2 := Strip(s1, Chars({'"'}));
    assert x in s1;
    assert x in s2;
    assert x in s3;
    LowerKeeps(s3, x);
    LowerCharKeepsNonWhitespace(x);
  }

  /** The string the normaliser produces before the empty-to-`None` test. */
  function Cleaned(s: string): (r: string)
    ensures r != [] ==> !IsSpace(r[0]) && !IsSpace(r[|r| - 1])
    ensures forall x :: x in r ==> x !in Rewritten && !IsUpper(x)
    ensures NoDoubleSpace(r)
  {
    CleanedFacts(s, Rewrite(s), CollapseSpaces(Rewrite(s)), Trim(CollapseSpaces(Rewrite(s))));
    Trim(CollapseSpaces(Rewrite(s)))
  }

  lemma CleanedFacts(s: string, rewritten: string, collapsed: string, r: string)
    requires rewritten == Rewrite(s) && collapsed == CollapseSpaces(rewritten) && r == Trim(collapsed)
    ensures r != [] ==> !IsSpace(r[0]) && !IsSpace(r[|r| - 1])
    ensures forall x :: x in r ==> x !in Rewritten && !IsUpper(x)
    ensures NoDoubleSpace(r)
  {
    RewriteCharacters(s);
    assert forall x :: x in collapsed ==> x !in Rewritten;
  }

  /** Any character that the pipeline does not drop survives it, lower-cased. */
  lemma CleanedKeeps(s: string, x: char)
    requires x in s && !IsBlank(x)
    ensures LowerChar(x) in Cleaned(s)
  {
    RewriteCharacters(s);
    assert x in Rewrite(s);
    assert x in CollapseSpaces(Rewrite(s));
    TrimKeeps(CollapseSpaces(Rewrite(s)), x);
  }

  /**
   * `pre_process_string(value)`. On ASCII `unidecode` is the identity, so the
   * substitutions start from the text itself.
   */
  function PreProcessString(value: Cell): (r: Option<string>)
    requires value.Text? ==> IsAscii(value.s)
    ensures !value.Text? ==> r == None
    ensures r.Some? ==> r.value != []
    ensures r.Some? ==> forall x :: x in r.value ==> x !in Rewritten && !IsUpper(x)
    ensures r.Some? ==> NoDoubleSpace(r.value)
    ensures r.Some? ==> !IsSpace(r.value[0]) && !IsSpace(r.value[|r.value| - 1])
  {
    var cleaned := Cleaned(InputText(value));
    if cleaned == [] then None else Some(cleaned)
  }

  // ---------------------------------------------------------------------------
  // What the pipeline does to whole classes of inputs
  // ---------------------------------------------------------------------------

  /** A string made only of characters that the pipeline never drops. */
  predicate Plain(s: string)
  {
    IsAscii(s) && forall x :: x in s ==> !IsBlank(x)
  }

  /** Text made only of whitespace and rewritten characters normalises to `None`. */
  lemma {:induction false} BlankInputIsNone(s: string)
    requires forall x :: x in s ==> IsSpace(x) || x in Rewritten
    ensures IsAscii(s) && PreProcessString(Text(s)) == None
  {
    assert IsAscii(s) by {
      forall i | 0 <= i < |s| ensures s[i] as int < 128 {
        assert s[i] in s;
      }
    }
    RewriteCharacters(s);
    var collapsed := CollapseSpaces(Rewrite(s));
    assert forall x :: x in collapsed ==> IsSpace(x);
    var s1 := Strip(collapsed, AnyWhitespace);
    assert s1 == [];
    assert Cleaned(s) == [];
  }

  /** Any character that the pipeline does not drop survives it, lower-cased, so the result is not `None`. */
  lemma KeptCharacterSurvives(s: string, x: char)
    requires IsAscii(s) && x in s && !IsBlank(x)
    ensures PreProcessString(Text(s)).Some? && LowerChar(x) in PreProcessString(Text(s)).value
  {
    CleanedKeeps(s, x);
  }

  lemma RewriteUntouched(s: string)
    requires forall x :: x in s ==> x !in Rewritten
    ensures Rewrite(s) == s
  {
    SubstituteUntouched(s, '\n', " ");
    SubstituteUntouched(s, '-', "");
    SubstituteUntouched(s, '/', " ");
    SubstituteUntouched(s, '\'', "");
    SubstituteUntouched(s, ',', "");
    SubstituteUntouched(s, ':', " ");
  }

  lemma LowerAppend(a: string, b: string)
    ensures Lower(a + b) == Lower(a) + Lower(b)
  {
    assert forall i :: 0 <= i < |a + b| ==> Lower(a + b)[i] == (Lower(a) + Lower(b))[i];
  }

  /** The strip/lower chain only lower-cases a string whose two ends are neither whitespace nor a quote. */
  lemma TrimPlain(s: string)
    requires s != []
    requires !IsSpace(s[0]) && s[0] != '"' && s[0] != '\''
    requires !IsSpace(s[|s| - 1]) && s[|s| - 1] != '"' && s[|s| - 1] != '\''
    ensures Trim(s) == Lower(s)
  {
    StripKeepsKeptEnds(s, AnyWhitespace);
    StripKeepsKeptEnds(s, Chars({'"'}));
    StripKeepsKeptEnds(s, Chars({'\''}));
    LowerCharKeepsNonWhitespace(s[0]);
    LowerCharKeepsNonWhitespace(s[|s| - 1]);
    StripKeepsKeptEnds(Lower(s), AnyWhitespace);
  }

  /** Once the substitutions leave a single-spaced text whose ends are kept, only lower-casing remains. */
  lemma CleanedOfRewrite(s: string, t: string)
    requires Rewrite(s) == t && NoDoubleSpace(t)
    requires t != [] && !IsBlank(t[0]) && !IsBlank(t[|t| - 1])
    ensures Cleaned(s) == Lower(t)
  {
    CollapseFixesSingleSpaced(t);
    TrimPlain(t);
  }

  lemma RewriteJoin(x: string, y: string, c: char)
    requires forall z :: z in x ==> z !in Rewritten
    requires forall z :: z in y ==> z !in Rewritten
    ensures Rewrite(x + [c] + y) == x + RewriteChar(c) + y
  {
    RewriteAppend(x + [c], y);
    RewriteAppend(x, [c]);
    RewriteSingle(c);
    RewriteUntouched(x);
    RewriteUntouched(y);
  }

  lemma PlainJoinIsAscii(x: string, y: string, c: char)
    requires Plain(x) && Plain(y) && c as int < 128
    ensures IsAscii(x + [c] + y)
  {
    var s := x + [c] + y;
    forall i | 0 <= i < |s| ensures s[i] as int < 128 {
      if i < |x| { assert s[i] == x[i]; } else if i > |x| { assert s[i] == y[i - |x| - 1]; }
    }
  }

  lemma PreProcessOfCleaned(s: string, t: string)
    requires IsAscii(s) && Cleaned(s) == t && t != []
    ensures PreProcessString(Text(s)) == Some(t)
  {
  }

  lemma SpaceJoinIsSingleSpaced(x: string, y: string)
    requires Plain(x) && Plain(y)
    ensures NoDoubleSpace(x + " " + y)
  {
    var joined := x + " " + y;
    forall i | 0 <= i < |joined| - 1 ensures !(joined[i] == ' ' && joined[i + 1] == ' ') {
      if i < |x| {
        assert joined[i] == x[i] && x[i] in x;
      } else {
        assert joined[i + 1] == y[i - |x|] && y[i - |x|] in y;
      }
    }
  }

  lemma PlainJoinIsSingleSpaced(x: string, y: string)
    requires Plain(x) && Plain(y)
    ensures NoDoubleSpace(x + y)
  {
    var joined := x + y;
    forall i | 0 <= i < |joined| - 1 ensures joined[i] != ' ' {
      if i < |x| {
        assert joined[i] == x[i] && x[i] in x;
      } else {
        assert joined[i] == y[i - |x|] && y[i - |x|] in y;
      }
    }
  }

  lemma PlainEnds(x: string, y: string, mid: string)
    requires Plain(x) && Plain(y) && x != [] && y != []
    ensures !IsBlank((x + mid + y)[0]) && !IsBlank((x + mid + y)[|x + mid + y| - 1])
  {
    assert (x + mid + y)[0] == x[0] && x[0] in x;
    assert (x + mid + y)[|x + mid + y| - 1] == y[|y| - 1] && y[|y| - 1] in y;
  }

  lemma SeparatorJoinFacts(x: string, y: string, sep: char)
    requires Plain(x) && Plain(y) && x != [] && y != []
    requires sep in Separators
    ensures Rewrite(x + [sep] + y) == x + " " + y
    ensures NoDoubleSpace(x + " " + y)
    ensures !IsBlank((x + " " + y)[0]) && !IsBlank((x + " " + y)[|x + " " + y| - 1])
    ensures Lower(x + " " + y) == Lower(x) + " " + Lower(y)
  {
    RewriteJoin(x, y, sep);
    PlainEnds(x, y, " ");
    SpaceJoinIsSingleSpaced(x, y);
    LowerAppend(x + " ", y);
    LowerAppend(x, " ");
    assert Lower(" ") == " ";
  }

  lemma CleanedSeparatorJoin(x: string, y: string, sep: char)
    requires Plain(x) && Plain(y) && x != [] && y != []
    requires sep in Separators
    ensures Cleaned(x + [sep] + y) == Lower(x) + " " + Lower(y)
  {
    SeparatorJoinFacts(x, y, sep);
    CleanedOfRewrite(x + [sep] + y, x + " " + y);
  }
  lemma DeletedJoinFacts(x: string, y: string, d: char)
    requires Plain(x) && Plain(y) && x != [] && y != []
    requires d in Deleted
    ensures Rewrite(x + [d] + y) == x + y
    ensures NoDoubleSpace(x + y)
    ensures !IsBlank((x + y)[0]) && !IsBlank((x + y)[|x + y| - 1])
  {
    RewriteJoin(x, y, d);
    assert RewriteChar(d) == [] by {
      assert d !in Separators;
    }
    assert x + [] + y == x + y;
    PlainEnds(x, y, []);
    assert x + [] + y == x + y;
    PlainJoinIsSingleSpaced(x, y);
  }

  lemma CleanedDeletedJoin(x: string, y: string, d: char)
    requires Plain(x) && Plain(y) && x != [] && y != []
    requires d in Deleted
    ensures Cleaned(x + [d] + y) == Lower(x + y)
  {
    DeletedJoinFacts(x, y, d);
    CleanedOfRewrite(x + [d] + y, x + y);
  }

  /** A plain string has no space at all, so no double space. */
  lemma PlainIsSingleSpaced(x: string)
    requires Plain(x)
    ensures NoDoubleSpace(x)
  {
    forall i | 0 <= i < |x| ensures x[i] != ' ' {
      assert x[i] in x;
    }
  }

  lemma SpaceRunRewrite(x: string, n: nat, y: string)
    requires Plain(x) && Plain(y)
    ensures Rewrite(x + Spaces(n) + y) == x + Spaces(n) + y
  {
    var s := x + Spaces(n) + y;
    assert forall z :: z in s ==> z in x || z in Spaces(n) || z in y;
    RewriteUntouched(s);
  }

  lemma SpaceRunCollapse(x: string, n: nat, y: string)
    requires Plain(x) && Plain(y) && x != [] && y != [] && n >= 1
    ensures CollapseSpaces(x + Spaces(n) + y) == x + " " + y
  {
    assert x[|x| - 1] in x && y[0] in y;
    CollapseRun(x, n, y);
    PlainIsSingleSpaced(x);
    CollapseFixesSingleSpaced(x);
    PlainIsSingleSpaced(y);
    CollapseFixesSingleSpaced(y);
  }

  /** The strip/lower chain on two plain words joined by one space only lower-cases the words. */
  lemma TrimSpaceJoin(x: string, y: string)
    requires Plain(x) && Plain(y) && x != [] && y != []
    ensures Trim(x + " " + y) == Lower(x) + " " + Lower(y)
  {
    PlainEnds(x, y, " ");
    TrimPlain(x + " " + y);
    LowerAppend(x + " ", y);
    LowerAppend(x, " ");
    assert Lower(" ") == " ";
  }

  lemma CleanedSpaceRun(x: string, n: nat, y: string)
    requires Plain(x) && Plain(y) && x != [] && y != [] && n >= 1
    ensures Cleaned(x + Spaces(n) + y) == Lower(x) + " " + Lower(y)
  {
    SpaceRunRewrite(x, n, y);
    SpaceRunCollapse(x, n, y);
    TrimSpaceJoin(x, y);
  }

  /** Two plain words separated by any run of spaces normalise to the lower-cased words joined by one space. */
  lemma SpaceRunBecomesSpace(x: string, n: nat, y: string)
    requires Plain(x) && Plain(y) && x != [] && y != [] && n >= 1
    ensures IsAscii(x + Spaces(n) + y)
    ensures PreProcessString(Text(x + Spaces(n) + y)) == Some(Lower(x) + " " + Lower(y))
  {
    var s := x + Spaces(n) + y;
    forall i | 0 <= i < |s| ensures s[i] as int < 128 {
      if i < |x| {
        assert s[i] == x[i];
      } else if i < |x| + n {
        assert s[i] == Spaces(n)[i - |x|] && Spaces(n)[i - |x|] in Spaces(n);
      } else {
        assert s[i] == y[i - |x| - n];
      }
    }
    CleanedSpaceRun(x, n, y);
    PreProcessOfCleaned(s, Lower(x) + " " + Lower(y));
  }

  /**
   * `/`, `:` and newline separate words: between two plain words they become
   * one space, so `a/b` normalises to `a b`.
   */
  lemma SeparatorBecomesSpace(x: string, y: string, sep: char)
    requires Plain(x) && Plain(y) && x != [] && y != []
    requires sep in Separators
    ensures IsAscii(x + [sep] + y)
    ensures PreProcessString(Text(x + [sep] + y)) == Some(Lower(x) + " " + Lower(y))
  {
    PlainJoinIsAscii(x, y, sep);
    CleanedSeparatorJoin(x, y, sep);
    PreProcessOfCleaned(x + [sep] + y, Lower(x) + " " + Lower(y));
  }

  /** `-`, `'` and `,` join words: between two plain words they vanish, so `a-b` normalises to `ab`. */
  lemma DeletedCharacterJoins(x: string, y: string, d: char)
    requires Plain(x) && Plain(y) && x != [] && y != []
    requires d in Deleted
    ensures IsAscii(x + [d] + y)
    ensures PreProcessString(Text(x + [d] + y)) == Some(Lower(x + y))
  {
    PlainJoinIsAscii(x, y, d);
    CleanedDeletedJoin(x, y, d);
    PreProcessOfCleaned(x + [d] + y, Lower(x + y));
  }

  /** `a-b` normalises to `ab`. */
  lemma HyphenExample(a: string, b: string)
    requires a == "a" && b == "b"
    ensures IsAscii(a + "-" + b) && PreProcessString(Text(a + "-" + b)) == Some(a + b)
  {
    assert Plain(a) && Plain(b);
    DeletedCharacterJoins(a, b, '-');
    assert a + ['-'] + b == a + "-" + b;
    assert Lower(a + b) == a + b;
  }

  /** `a/b` normalises to `a b`. */
  lemma SlashExample(a: string, b: string)
    requires a == "a" && b == "b"
    ensures IsAscii(a + "/" + b) && PreProcessString(Text(a + "/" + b)) == Some(a + " " + b)
  {
    assert Plain(a) && Plain(b);
    SeparatorBecomesSpace(a, b, '/');
    assert a + ['/'] + b == a + "/" + b;
    assert Lower(a) == a && Lower(b) == b;
  }

  /** `" "x`: the leading quote goes, then the space it uncovered. */
  lemma TrimQuoteSpace(s: string)
    requires s == ['"', ' ', '"', 'x']
    ensures Trim(s) == s[2..]
  {
    StripKeepsKeptEnds(s, AnyWhitespace);
    assert Strip(s, Chars({'"'})) == Strip(s[1..], Chars({'"'}));
    StripKeepsKeptEnds(s[1..], Chars({'"'}));
    StripKeepsKeptEnds(s[1..], Chars({'\''}));
    assert Lower(s[1..]) == s[1..];
    assert Strip(s[1..], AnyWhitespace) == Strip(s[2..], AnyWhitespace);
    StripKeepsKeptEnds(s[2..], AnyWhitespace);
  }

  /** `"x`: the leading quote goes. */
  lemma TrimQuote(s: string)
    requires s == ['"', 'x']
    ensures Trim(s) == s[1..]
  {
    StripKeepsKeptEnds(s, AnyWhitespace);
    assert Strip(s, Chars({'"'})) == Strip(s[1..], Chars({'"'}));
    StripKeepsKeptEnds(s[1..], Chars({'"'}));
    StripKeepsKeptEnds(s[1..], Chars({'\''}));
    assert Lower(s[1..]) == s[1..];
    StripKeepsKeptEnds(s[1..], AnyWhitespace);
  }

  /** Text with no rewritten character and no double space goes straight to the strips. */
  lemma CleanedOfUntouched(s: string)
    requires forall x :: x in s ==> x !in Rewritten
    requires NoDoubleSpace(s)
    ensures Cleaned(s) == Trim(s)
  {
    RewriteUntouched(s);
    CollapseFixesSingleSpaced(s);
  }

  lemma CleanedQuoteSpace(s: string)
    requires s == ['"', ' ', '"', 'x']
    ensures Cleaned(s) == s[2..]
  {
    CleanedOfUntouched(s);
    TrimQuoteSpace(s);
  }

  lemma CleanedQuote(s: string)
    requires s == ['"', 'x']
    ensures Cleaned(s) == s[1..]
  {
    CleanedOfUntouched(s);
    TrimQuote(s);
  }

  /**
   * The normaliser is not idempotent: the quote strip runs before the last
   * whitespace strip, so `" "x` becomes `"x`, which in turn becomes `x`.
   */
  lemma NotIdempotent(s: string)
    requires s == ['"', ' ', '"', 'x']
    ensures IsAscii(s) && PreProcessString(Text(s)) == Some(s[2..])
    ensures IsAscii(s[2..]) && PreProcessString(Text(s[2..])) == Some(s[3..])
    ensures s[2..] != s[3..]
  {
    assert IsAscii(s) && IsAscii(s[2..]);
    CleanedQuoteSpace(s);
    PreProcessOfCleaned(s, s[2..]);
    CleanedQuote(s[2..]);
    PreProcessOfCleaned(s[2..], s[3..]);
  }
}

/** The locale rewrite applied before float(): s.replace(".", "").replace(",", ".")
    turns "10.250,50" (dot thousands, comma decimals) into "10250.50". */
module LocaleNumber {

  function Count(s: string, c: char): (n: nat)
    ensures n <= |s|
    ensures n == 0 <==> c !in s
  {
    if s == [] then 0 else (if s[0] == c then 1 else 0) + Count(s[1..], c)
  }

  /** s.replace(c, ""): every occurrence of c removed, the rest kept in order. */
  function Delete(s: string, c: char): (r: string)
    ensures c !in r
    ensures |r| == |s| - Count(s, c)
  {
    if s == [] then []
    else if s[0] == c then Delete(s[1..], c)
    else [s[0]] + Delete(s[1..], c)
  }

  /** s.replace(a, b) for single characters: every a becomes b, same length. */
  function Substitute(s: string, a: char, b: char): (r: string)
    ensures |r| == |s|
    ensures forall i :: 0 <= i < |s| ==> r[i] == (if s[i] == a then b else s[i])
  {
    if s == [] then [] else [if s[0] == a then b else s[0]] + Substitute(s[1..], a, b)
  }

  /** The text left when both separators are dropped: digits, signs and anything else. */
  function Payload(s: string): (r: string)
    ensures '.' !in r && ',' !in r
  {
    if s == [] then []
    else if s[0] == '.' || s[0] == ',' then Payload(s[1..])
    else [s[0]] + Payload(s[1..])
  }

  /** Deleting a character the text does not contain changes nothing. */
  lemma {:induction false} DeleteAbsent(s: string, c: char)
    requires c !in s
    ensures Delete(s, c) == s
  {
    if s != [] {
      assert c !in s[1..];
      DeleteAbsent(s[1..], c);
      assert [s[0]] + s[1..] == s;
    }
  }

  /** Deletion distributes over concatenation. */
  lemma {:induction false} DeleteAppend(x: string, y: string, c: char)
    ensures Delete(x + y, c) == Delete(x, c) + Delete(y, c)
  {
    if x == [] {
      assert x + y == y;
    } else {
      assert (x + y)[0] == x[0] && (x + y)[1..] == x[1..] + y;
      DeleteAppend(x[1..], y, c);
    }
  }

  /** Counting over a text that starts with x: x's own contribution plus the rest. */
  lemma CountCons(x: char, t: string, c: char)
    ensures Count([x] + t, c) == (if x == c then 1 else 0) + Count(t, c)
  {
    assert ([x] + t)[1..] == t;
  }

  /** Delete keeps every other character in order: the character at position i
      moves left by the number of c before it. */
  lemma {:induction false} DeletePositions(s: string, c: char)
    ensures forall i :: 0 <= i < |s| && s[i] != c ==>
              i - Count(s[..i], c) < |Delete(s, c)| && Delete(s, c)[i - Count(s[..i], c)] == s[i]
  {
    if s != [] {
      var t := s[1..];
      DeletePositions(t, c);
      forall i | 0 <= i < |s| && s[i] != c
        ensures i - Count(s[..i], c) < |Delete(s, c)| && Delete(s, c)[i - Count(s[..i], c)] == s[i]
      {
        if i > 0 {
          assert s[..i] == [s[0]] + t[..i - 1];
          CountCons(s[0], t[..i - 1], c);
          assert t[i - 1] == s[i];
        }
      }
    }
  }

  /** The normalised text has no ',' and exactly one '.' per input ','; it is
      shorter than the input by the number of input '.', and every character
      other than the two separators survives in its original order.
      NormalizePositions says where each character lands. */
  function Normalize(s: string): (r: string)
    ensures ',' !in r
    ensures Count(r, '.') == Count(s, ',')
    ensures |r| == |s| - Count(s, '.')
    ensures Payload(r) == Payload(s)
  {
    var d := Delete(s, '.');
    CountSubstitute(d, ',', '.');
    CountDelete(s, '.', ',');
    PayloadSubstitute(d);
    PayloadDelete(s);
    Substitute(d, ',', '.')
  }

  lemma {:induction false} CountSubstitute(s: string, a: char, b: char)
    requires a != b
    ensures Count(Substitute(s, a, b), b) == Count(s, a) + Count(s, b)
    ensures Count(Substitute(s, a, b), a) == 0
  {
    if s != [] {
      CountSubstitute(s[1..], a, b);
      assert Substitute(s, a, b)[1..] == Substitute(s[1..], a, b);
    }
  }

  lemma {:induction false} CountDelete(s: string, c: char, d: char)
    requires c != d
    ensures Count(Delete(s, c), d) == Count(s, d)
  {
    if s != [] {
      CountDelete(s[1..], c, d);
      if s[0] != c {
        assert ([s[0]] + Delete(s[1..], c))[1..] == Delete(s[1..], c);
      }
    }
  }

  lemma {:induction false} PayloadSubstitute(s: string)
    ensures Payload(Substitute(s, ',', '.')) == Payload(s)
  {
    if s != [] {
      PayloadSubstitute(s[1..]);
      assert Substitute(s, ',', '.')[1..] == Substitute(s[1..], ',', '.');
    }
  }

  lemma {:induction false} PayloadDelete(s: string)
    ensures Payload(Delete(s, '.')) == Payload(s)
  {
    if s != [] {
      PayloadDelete(s[1..]);
      if s[0] != '.' {
        assert ([s[0]] + Delete(s[1..], '.'))[1..] == Delete(s[1..], '.');
      }
    }
  }

  /** Each non-'.' input character lands, with ',' read as '.', at its own
      position less the number of '.' before it: the decimal point ends up
      exactly where the decimal comma was among the remaining characters. */
  lemma NormalizePositions(s: string)
    ensures forall i :: 0 <= i < |s| && s[i] != '.' ==>
              i - Count(s[..i], '.') < |Normalize(s)|
              && Normalize(s)[i - Count(s[..i], '.')] == (if s[i] == ',' then '.' else s[i])
  {
    DeletePositions(s, '.');
  }

  /** The decimal comma of "1,5" becomes the decimal point of "1.5". */
  lemma NormalizeDecimalComma()
    ensures Normalize("1,5") == "1.5"
  {
    var s := "1,5";
    NormalizePositions(s);
    assert s[..0] == [] && s[..1] == ['1'] && s[..2] == ['1', ','];
    assert Count(s, '.') == 0;
  }

  /** A number with one thousands dot and a decimal comma, such as "1.000,5",
      loses the dot and has its comma turned into a point: "1000.5". */
  lemma NormalizeGrouped(whole: string, group: string, frac: string)
    requires '.' !in whole && '.' !in group && '.' !in frac
    requires ',' !in whole && ',' !in group && ',' !in frac
    ensures Normalize(whole + "." + group + "," + frac) == whole + group + "." + frac
  {
    DeleteGrouped(whole, group, frac);
    assert whole + group + "," + frac == (whole + group) + [','] + frac;
    SubstituteSingle(whole + group, frac);
    assert (whole + group) + ['.'] + frac == whole + group + "." + frac;
  }

  lemma DeleteGrouped(whole: string, group: string, frac: string)
    requires '.' !in whole && '.' !in group && '.' !in frac
    ensures Delete(whole + "." + group + "," + frac, '.') == whole + group + "," + frac
  {
    var tail := [','] + frac;
    var rest := ['.'] + (group + tail);
    Regroup(whole, group, frac);
    DeleteAbsent(whole, '.');
    DeleteAbsent(group, '.');
    DeleteAbsent(frac, '.');
    DeleteAppend(whole, rest, '.');
    DeleteCons('.', group + tail, '.');
    DeleteAppend(group, tail, '.');
    DeleteCons(',', frac, '.');
    assert Delete(tail, '.') == tail;
    assert Delete(rest, '.') == group + tail;
  }

  /** Delete on a text that starts with x: x is dropped exactly when it is c. */
  lemma DeleteCons(x: char, t: string, c: char)
    ensures Delete([x] + t, c) == (if x == c then Delete(t, c) else [x] + Delete(t, c))
  {
    assert ([x] + t)[1..] == t;
  }

  /** The two bracketings of a grouped number used above. */
  lemma Regroup(whole: string, group: string, frac: string)
    ensures whole + "." + group + "," + frac == whole + (['.'] + (group + ([','] + frac)))
    ensures whole + group + "," + frac == whole + (group + ([','] + frac))
  {
  }

  /** Substituting the only ',' of a text changes that one character. */
  lemma SubstituteSingle(x: string, y: string)
    requires ',' !in x && ',' !in y
    ensures Substitute(x + [','] + y, ',', '.') == x + ['.'] + y
  {
    var d := x + [','] + y;
    var r := Substitute(d, ',', '.');
    var want := x + ['.'] + y;
    forall i | 0 <= i < |r| ensures r[i] == want[i] {
      if i < |x| {
        assert d[i] == x[i];
      } else if i > |x| {
        assert d[i] == y[i - |x| - 1];
      }
    }
  }

  /** Turning the decimal points back into commas gives the input with only the
      thousands dots removed: normalisation loses nothing but those dots. */
  lemma {:induction false} NormalizeUndo(s: string)
    ensures Substitute(Normalize(s), '.', ',') == Delete(s, '.')
  {
    var d := Delete(s, '.');
    var r := Substitute(Normalize(s), '.', ',');
    assert '.' !in d;
    forall i | 0 <= i < |d| ensures r[i] == d[i] {
      assert d[i] != '.';
    }
  }
}

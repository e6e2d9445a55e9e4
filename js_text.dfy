/**
 The JavaScript string operations the map component relies on: the relational
 comparison of two strings (code-unit lexicographic order), the `_.sortBy` of
 distinct keys under that order, and the "name (code)" caption format.
 */
module JsText {

  import opened Options

  /** JavaScript's `a < b` on strings: the first differing unit decides, and a
      proper prefix comes before the longer string. */
  predicate Less(a: string, b: string)
    ensures Less(a, b) ==> |b| > 0 && (|a| == 0 || a[0] <= b[0])
  {
    if |b| == 0 then false
    else if |a| == 0 then true
    else if a[0] != b[0] then a[0] < b[0]
    else Less(a[1..], b[1..])
  }

  /** JavaScript's `a >= b` on strings, which is `!(a < b)`. */
  predicate AtLeast(a: string, b: string)
    ensures AtLeast(a, b) <==> a == b || Less(b, a)
  {
    if a == b then
      LessIrreflexive(a);
      !Less(a, b)
    else if Less(b, a) then
      LessAsymmetric(b, a);
      !Less(a, b)
    else
      LessTotal(a, b);
      !Less(a, b)
  }

  lemma {:induction false} LessIrreflexive(a: string)
    ensures !Less(a, a)
  {
    if |a| > 0 {
      LessIrreflexive(a[1..]);
    }
  }

  lemma {:induction false} LessTransitive(a: string, b: string, c: string)
    requires Less(a, b) && Less(b, c)
    ensures Less(a, c)
  {
    if |a| > 0 && a[0] == b[0] && b[0] == c[0] {
      LessTransitive(a[1..], b[1..], c[1..]);
    }
  }

  /** A proper prefix comes before the longer string. */
  lemma {:induction false} PrefixLess(a: string, b: string)
    requires |a| < |b| && a == b[..|a|]
    ensures Less(a, b)
  {
    if |a| > 0 {
      assert a[1..] == b[1..][..|a| - 1];
      PrefixLess(a[1..], b[1..]);
    }
  }

  lemma LessAsymmetric(a: string, b: string)
    requires Less(a, b)
    ensures !Less(b, a)
  {
    if Less(b, a) {
      LessTransitive(a, b, a);
      LessIrreflexive(a);
    }
  }

  lemma {:induction false} LessTotal(a: string, b: string)
    requires a != b
    ensures Less(a, b) || Less(b, a)
  {
    if |a| > 0 && |b| > 0 && a[0] == b[0] {
      LessTotal(a[1..], b[1..]);
    }
  }

  /** Against a one-letter string, `code >= [letter]` decides on the first
      letter alone whenever `code` is non-empty. */
  lemma AtLeastLetter(code: string, letter: char)
    requires |code| > 0
    ensures AtLeast(code, [letter]) <==> code[0] >= letter
  {
    if code[0] == letter {
      assert !Less(code[1..], [letter][1..]);
    }
  }

  predicate Distinct(s: seq<string>)
  {
    forall i, j :: 0 <= i < j < |s| ==> s[i] != s[j]
  }

  /** The strings a list holds. */
  function Elems(s: seq<string>): set<string>
  {
    set x | x in s
  }

  predicate StrictlySorted(s: seq<string>)
  {
    forall i, j :: 0 <= i < j < |s| ==> Less(s[i], s[j])
  }

  /** A strictly sorted list repeats nothing. */
  lemma SortedDistinct(s: seq<string>)
    requires StrictlySorted(s)
    ensures Distinct(s)
  {
    forall i, j | 0 <= i < j < |s| ensures s[i] != s[j] {
      LessIrreflexive(s[i]);
    }
  }

  /** A list that repeats nothing has as many different elements as entries. */
  lemma {:induction false} DistinctCount(s: seq<string>)
    requires Distinct(s)
    ensures |Elems(s)| == |s|
  {
    if s != [] {
      var tail := s[1..];
      assert Distinct(tail) by {
        forall i, j | 0 <= i < j < |tail| ensures tail[i] != tail[j] {
          assert tail[i] == s[i + 1] && tail[j] == s[j + 1];
        }
      }
      DistinctCount(tail);
      assert s[0] !in tail by {
        forall k | 0 <= k < |tail| ensures tail[k] != s[0] {
          assert tail[k] == s[k + 1];
        }
      }
      assert Elems(s) == Elems(tail) + {s[0]} by {
        assert s == [s[0]] + tail;
      }
    }
  }

  /** The prefix without the last element is distinct and does not contain
      that element. */
  lemma DistinctDropLast(s: seq<string>)
    requires Distinct(s) && s != []
    ensures Distinct(s[..|s| - 1])
    ensures s[|s| - 1] !in Elems(s[..|s| - 1])
    ensures Elems(s) == Elems(s[..|s| - 1]) + {s[|s| - 1]}
  {
    var init := s[..|s| - 1];
    assert s == init + [s[|s| - 1]];
    forall k | 0 <= k < |init| ensures init[k] != s[|s| - 1] {
      assert init[k] == s[k];
    }
  }

  /** Inserts `x` before the first element it is less than. */
  function Insert(x: string, s: seq<string>): (r: seq<string>)
    ensures |r| == |s| + 1 && x in r
  {
    if s == [] || Less(x, s[0]) then [x] + s else [s[0]] + Insert(x, s[1..])
  }

  /** `_.sortBy(keys, identity)`: the keys in ascending JavaScript string order. */
  function SortBy(keys: seq<string>): (r: seq<string>)
    ensures |r| == |keys|
  {
    if keys == [] then [] else Insert(keys[0], SortBy(keys[1..]))
  }

  lemma {:induction false} InsertPermutes(x: string, s: seq<string>)
    ensures multiset(Insert(x, s)) == multiset(s) + multiset{x}
  {
    if s != [] && !Less(x, s[0]) {
      InsertPermutes(x, s[1..]);
      assert s == [s[0]] + s[1..];
    }
  }

  lemma {:induction false} InsertSorted(x: string, s: seq<string>)
    requires StrictlySorted(s) && x !in s
    ensures StrictlySorted(Insert(x, s))
  {
    if s == [] {
    } else if Less(x, s[0]) {
      forall j | 0 < j < |s| ensures Less(x, s[j]) {
        LessTransitive(x, s[0], s[j]);
      }
    } else {
      var tail := Insert(x, s[1..]);
      InsertSorted(x, s[1..]);
      InsertPermutes(x, s[1..]);
      LessTotal(x, s[0]);
      forall e | e in tail ensures Less(s[0], e) {
        assert e in multiset(tail);
        if e != x {
          assert e in multiset(s[1..]);
          var k :| 0 <= k < |s[1..]| && s[1..][k] == e;
          assert s[k + 1] == e;
        }
      }
      var r := [s[0]] + tail;
      forall i, j | 0 <= i < j < |r| ensures Less(r[i], r[j]) {
        if i == 0 {
          assert r[j] == tail[j - 1];
        } else {
          assert r[i] == tail[i - 1] && r[j] == tail[j - 1];
        }
      }
    }
  }

  /** Sorting keeps every key, as often as it occurs. */
  lemma {:induction false} SortByPermutes(keys: seq<string>)
    ensures multiset(SortBy(keys)) == multiset(keys)
  {
    if keys != [] {
      SortByPermutes(keys[1..]);
      InsertPermutes(keys[0], SortBy(keys[1..]));
      assert keys == [keys[0]] + keys[1..];
    }
  }

  /** Distinct keys come out strictly ascending. */
  lemma {:induction false} SortBySorted(keys: seq<string>)
    requires Distinct(keys)
    ensures StrictlySorted(SortBy(keys))
  {
    if keys != [] {
      var rest := SortBy(keys[1..]);
      assert Distinct(keys[1..]) by {
        forall i, j | 0 <= i < j < |keys[1..]| ensures keys[1..][i] != keys[1..][j] {
          assert keys[1..][i] == keys[i + 1] && keys[1..][j] == keys[j + 1];
        }
      }
      SortBySorted(keys[1..]);
      SortByPermutes(keys[1..]);
      assert keys[0] !in keys[1..] by {
        forall k | 0 <= k < |keys[1..]| ensures keys[1..][k] != keys[0] {
          assert keys[1..][k] == keys[k + 1];
        }
      }
      assert keys[0] !in multiset(rest);
      InsertSorted(keys[0], rest);
    }
  }

  /** There is only one strictly sorted arrangement of a set of strings, so
      the result of sorting does not depend on the order of the keys. */
  lemma {:induction false} SortedUnique(a: seq<string>, b: seq<string>)
    requires StrictlySorted(a) && StrictlySorted(b)
    requires forall x :: x in a <==> x in b
    ensures a == b
  {
    if a != [] { assert a[0] in a; }
    if b != [] { assert b[0] in b; }
    if a != [] && b != [] {
      if a[0] != b[0] {
        assert b[0] in a;
        var m :| 0 <= m < |a| && a[m] == b[0];
        assert a[0] in b;
        var k :| 0 <= k < |b| && b[k] == a[0];
        assert Less(a[0], b[0]);
        assert Less(b[0], a[0]);
        LessAsymmetric(a[0], b[0]);
        assert false;
      }
      forall x ensures x in a[1..] <==> x in b[1..] {
        if x in a[1..] {
          var i :| 0 <= i < |a[1..]| && a[1..][i] == x;
          assert x in a && Less(a[0], a[i + 1]);
          LessIrreflexive(a[0]);
          var j :| 0 <= j < |b| && b[j] == x;
          assert j != 0 && b[1..][j - 1] == x;
        }
        if x in b[1..] {
          var j :| 0 <= j < |b[1..]| && b[1..][j] == x;
          assert x in b && Less(b[0], b[j + 1]);
          LessIrreflexive(b[0]);
          var i :| 0 <= i < |a| && a[i] == x;
          assert i != 0 && a[1..][i - 1] == x;
        }
      }
      SortedUnique(a[1..], b[1..]);
      assert a == [a[0]] + a[1..] && b == [b[0]] + b[1..];
    }
  }

  /** Sorting two orderings of the same distinct keys gives the same list. */
  lemma SortByOrderIndependent(k1: seq<string>, k2: seq<string>)
    requires Distinct(k1) && Distinct(k2)
    requires forall x :: x in k1 <==> x in k2
    ensures SortBy(k1) == SortBy(k2)
  {
    var s1, s2 := SortBy(k1), SortBy(k2);
    SortByPermutes(k1);
    SortByPermutes(k2);
    SortBySorted(k1);
    SortBySorted(k2);
    forall x ensures x in s1 <==> x in s2 {
      assert x in s1 <==> x in multiset(s1);
      assert x in s2 <==> x in multiset(s2);
      assert x in k1 <==> x in multiset(k1);
      assert x in k2 <==> x in multiset(k2);
    }
    SortedUnique(s1, s2);
  }

  /** The text JavaScript's `+` produces for a value that may be `undefined`. */
  function Display(s: Option<string>): (r: string)
    ensures s.Some? ==> r == s.value
    ensures s.None? ==> r == "undefined"
  {
    match s
    case Some(t) => t
    case None => "undefined"
  }

  /** The "name (code)" format shared by the district labels and the tooltip. */
  function Caption(name: string, code: string): (r: string)
    ensures |r| == |name| + |code| + 3
    ensures r[..|name|] == name && r[|r| - 1] == ')'
  {
    name + " (" + code + ")"
  }

  /** Reads the code back out of a caption whose name part is `nameLength` long. */
  function CaptionCode(caption: string, nameLength: nat): Option<string>
  {
    if nameLength + 3 <= |caption| && caption[nameLength..nameLength + 2] == " ("
       && caption[|caption| - 1] == ')'
    then Some(caption[nameLength + 2..|caption| - 1])
    else None
  }

  /** A caption is never empty, starts with the name and gives its code back. */
  lemma CaptionRoundTrip(name: string, code: string)
    ensures |Caption(name, code)| == |name| + |code| + 3
    ensures Caption(name, code)[..|name|] == name
    ensures CaptionCode(Caption(name, code), |name|) == Some(code)
  {
    var c := Caption(name, code);
    assert c[|name|..|name| + 2] == " (";
    assert c[|name| + 2..|c| - 1] == code;
  }

  /** Two captions over names of the same length are equal only when both
      the names and the codes are. */
  lemma CaptionInjective(n1: string, c1: string, n2: string, c2: string)
    requires |n1| == |n2|
    requires Caption(n1, c1) == Caption(n2, c2)
    ensures n1 == n2 && c1 == c2
  {
    CaptionRoundTrip(n1, c1);
    CaptionRoundTrip(n2, c2);
  }

}

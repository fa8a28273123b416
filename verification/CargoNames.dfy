/** Names in a Cargo target directory: object files, their stems, suffixes and last components. */
module CargoNames {
  import opened Prelude

  function LastIndexOf(s: string, c: char): int {
    if s == [] then -1 else if s[|s| - 1] == c then |s| - 1 else LastIndexOf(s[..|s| - 1], c)
  }

  lemma {:induction false} LastIndexOfBounds(s: string, c: char)
    ensures -1 <= LastIndexOf(s, c) < |s|
  {
    if s != [] && s[|s| - 1] != c {
      LastIndexOfBounds(s[..|s| - 1], c);
    }
  }

  /** The last position of the character, or -1 when there is none. */
  lemma {:induction false} LastIndexOfExact(s: string, c: char, i: int)
    ensures LastIndexOf(s, c) == i <==>
      if i < 0 then i == -1 && c !in s else i < |s| && s[i] == c && c !in s[i + 1..]
  {
    if s != [] {
      var n := |s| - 1;
      assert forall x :: x in s <==> x in s[..n] || x == s[n];
      if s[n] == c {
        assert i == n ==> s[i + 1..] == [];
        assert 0 <= i < n ==> s[i + 1..][n - i - 1] == c;
      } else {
        LastIndexOfExact(s[..n], c, i);
        assert i == n ==> s[i] != c;
        assert 0 <= i < n ==> s[..n][i] == s[i] && s[i + 1..] == s[..n][i + 1..] + [s[n]];
      }
    }
  }

  predicate EndsIn(s: string, tail: string) {
    |tail| <= |s| && s[|s| - |tail|..] == tail
  }

  lemma TailIsSuffix(s: string, c: char, tail: string, i: int)
    requires 0 <= i < |s|
    ensures s[i] == c && s[i + 1..] == tail <==> i == |s| - |tail| - 1 && EndsIn(s, [c] + tail)
  {
    assert s[i..] == [s[i]] + s[i + 1..];
    if i == |s| - |tail| - 1 && s[i..] == [c] + tail {
      assert s[i + 1..] == s[i..][1..] == tail;
    }
  }

  /** `s.rsplit("-", 1)[-1]`. */
  function AfterLastDash(s: string): string {
    LastIndexOfBounds(s, '-');
    s[LastIndexOf(s, '-') + 1..]
  }

  /** What follows the last dash: the whole text when it has none. */
  lemma AfterLastDashExact(s: string, tail: string)
    requires '-' !in tail
    ensures AfterLastDash(s) == tail <==> s == tail || EndsIn(s, "-" + tail)
  {
    var i := LastIndexOf(s, '-');
    LastIndexOfBounds(s, '-');
    LastIndexOfExact(s, '-', i);
    var k := |s| - |tail| - 1;
    if i >= 0 {
      TailIsSuffix(s, '-', tail, i);
    }
    if EndsIn(s, "-" + tail) {
      TailIsSuffix(s, '-', tail, k);
      LastIndexOfExact(s, '-', k);
    }
  }

  /** A stem's hash is its last sixteen digits. */
  lemma StemHash(stem: string)
    requires IsStem(stem)
    ensures AfterLastDash(stem) == stem[|stem| - 16..] && '-' !in AfterLastDash(stem)
  {
    var tail := stem[|stem| - 16..];
    forall i | 0 <= i < |tail| ensures tail[i] != '-' {
      assert tail[i] == stem[|stem| - 16 + i];
    }
    TailIsSuffix(stem, '-', tail, |stem| - 17);
    AfterLastDashExact(stem, tail);
  }

  /** `PurePath(name).suffix`. */
  function Suffix(name: string): string {
    var i := LastIndexOf(name, '.');
    if 0 < i < |name| - 1 then name[i..] else ""
  }

  /** A suffix is a dot and at least one character without a dot, behind at least one character. */
  lemma SuffixExact(name: string, tail: string)
    requires '.' !in tail && tail != ""
    ensures Suffix(name) == "." + tail <==> |name| > |tail| + 1 && EndsIn(name, "." + tail)
  {
    var i, k := LastIndexOf(name, '.'), |name| - |tail| - 1;
    LastIndexOfBounds(name, '.');
    LastIndexOfExact(name, '.', i);
    if EndsIn(name, "." + tail) {
      TailIsSuffix(name, '.', tail, k);
      LastIndexOfExact(name, '.', k);
      assert name[k..] == "." + tail;
    }
    if Suffix(name) == "." + tail {
      assert |name[i..]| == |tail| + 1;
    }
  }

  lemma NoSuffixExact(name: string)
    ensures Suffix(name) == "" <==> forall tail | '.' !in tail && tail != "" :: !(|name| > |tail| + 1 && EndsIn(name, "." + tail))
  {
    var i := LastIndexOf(name, '.');
    LastIndexOfBounds(name, '.');
    LastIndexOfExact(name, '.', i);
    if 0 < i < |name| - 1 {
      TailIsSuffix(name, '.', name[i + 1..], i);
      assert '.' !in name[i + 1..] && name[i + 1..] != "";
    }
    forall tail | '.' !in tail && tail != "" && Suffix(name) == "" ensures !(|name| > |tail| + 1 && EndsIn(name, "." + tail)) {
      SuffixExact(name, tail);
    }
  }

  /** `Path(text).name`: the last component that is neither empty nor a dot. */
  function FinalName(text: string): string
    decreases |text|
  {
    if text == "" then ""
    else
      LastIndexOfBounds(text, '/');
      var i := LastIndexOf(text, '/');
      var component := text[i + 1..];
      if component != "" && component != "." then component
      else if i < 0 then ""
      else FinalName(text[..i])
  }

  /** Slashes, and dots behind slashes. */
  predicate IsTrail(t: string) {
    || t == ""
    || (t[|t| - 1] == '/' && IsTrail(t[..|t| - 1]))
    || (|t| >= 2 && t[|t| - 2] == '/' && t[|t| - 1] == '.' && IsTrail(t[..|t| - 2]))
  }

  /** The name stands in the text from `i` to `j`, at its beginning or behind a slash, and only slashes and
      dots behind slashes follow. */
  predicate ComponentAt(text: string, name: string, i: nat, j: nat) {
    i <= j <= |text| && text[i..j] == name && (i == 0 || text[i - 1] == '/') && IsTrail(text[j..])
  }

  ghost predicate LastComponentIs(text: string, name: string) {
    name != "" && name != "." && '/' !in name && exists i: nat, j: nat :: ComponentAt(text, name, i, j)
  }

  lemma TrailNext(t: string, more: string)
    requires IsTrail(t) && (more == "/" || more == "/.")
    ensures IsTrail(t + more)
  {
    var r := t + more;
    if more == "/" {
      assert r[..|r| - 1] == t;
    } else {
      assert r[..|r| - 2] == t;
    }
  }

  /** What stands before a trailing slash, or a slash and a dot, stands in the whole text. */
  lemma ComponentBefore(text: string, i: nat, name: string, a: nat, b: nat)
    requires i < |text| && text[i] == '/' && (text[i + 1..] == "" || text[i + 1..] == ".")
    requires ComponentAt(text[..i], name, a, b)
    ensures ComponentAt(text, name, a, b)
  {
    TrailBefore(text, i, b);
    NameBefore(text, i, a, b);
  }

  lemma NameBefore(text: string, i: nat, a: nat, b: nat)
    requires a <= b <= i < |text|
    ensures text[a..b] == text[..i][a..b]
  {
  }

  lemma TrailBefore(text: string, i: nat, b: nat)
    requires b <= i < |text| && text[i] == '/' && (text[i + 1..] == "" || text[i + 1..] == ".")
    requires IsTrail(text[..i][b..])
    ensures IsTrail(text[b..])
  {
    TrailNext(text[..i][b..], "/" + text[i + 1..]);
    CutInThree(text, b, i);
  }

  lemma CutInThree(s: string, b: nat, i: nat)
    requires b <= i < |s| && s[i] == '/'
    ensures s[b..] == s[..i][b..] + ("/" + s[i + 1..])
  {
  }

  lemma {:induction false} FinalNameStands(text: string)
    requires FinalName(text) != ""
    ensures LastComponentIs(text, FinalName(text))
    decreases |text|
  {
    var i := LastIndexOf(text, '/');
    LastIndexOfBounds(text, '/');
    LastIndexOfExact(text, '/', i);
    var component := text[i + 1..];
    if component != "" && component != "." {
      assert text[|text|..] == "" && text[i + 1..|text|] == component;
      assert ComponentAt(text, component, i + 1, |text|);
    } else {
      FinalNameStands(text[..i]);
      var a: nat, b: nat :| ComponentAt(text[..i], FinalName(text), a, b);
      ComponentBefore(text, i, FinalName(text), a, b);
    }
  }

  /** A trailing slash, or a slash and a dot, does not change the final name. */
  lemma FinalNameSkips(text: string, i: nat)
    requires i < |text| && text[i] == '/' && (text[i + 1..] == "" || text[i + 1..] == ".")
    ensures FinalName(text) == FinalName(text[..i])
  {
    LastIndexOfExact(text, '/', i);
  }

  lemma ComponentInFront(text: string, n: nat, name: string, a: nat, b: nat)
    requires b <= n <= |text| && ComponentAt(text, name, a, b) && IsTrail(text[b..n])
    ensures ComponentAt(text[..n], name, a, b)
  {
    assert text[..n][b..] == text[b..n] && text[..n][a..b] == text[a..b];
  }

  lemma {:induction false} StandingIsFinal(text: string, name: string, a: nat, b: nat)
    requires name != "" && name != "." && '/' !in name && ComponentAt(text, name, a, b)
    ensures FinalName(text) == name
    decreases |text|
  {
    var n, trail := |text|, text[b..];
    if trail == "" {
      assert text[a..] == name;
      LastIndexOfExact(text, '/', a - 1);
    } else {
      var cut := if trail[|trail| - 1] == '/' && IsTrail(trail[..|trail| - 1]) then n - 1 else n - 2;
      assert text[b..cut] == trail[..cut - b];
      assert cut == n - 2 ==> text[cut + 1..] == [trail[|trail| - 1]];
      ComponentInFront(text, cut, name, a, b);
      StandingIsFinal(text[..cut], name, a, b);
      FinalNameSkips(text, cut);
    }
  }

  /** The final name of a text is its last component, up to trailing slashes and dots. */
  lemma FinalNameExact(text: string, name: string)
    requires name != ""
    ensures FinalName(text) == name <==> LastComponentIs(text, name)
  {
    if FinalName(text) == name {
      FinalNameStands(text);
    }
    if LastComponentIs(text, name) {
      var i: nat, j: nat :| ComponentAt(text, name, i, j);
      StandingIsFinal(text, name, i, j);
    }
  }

  /** A plain name, and a path that ends in it, have it as their last component. */
  lemma NameAndPathEnd(text: string, name: string)
    requires name != "" && name != "." && '/' !in name && (text == name || EndsIn(text, "/" + name))
    ensures LastComponentIs(text, name)
  {
    var n, i := |text|, |text| - |name|;
    assert text[n..] == "" && text[i..n] == text[i..];
    if text != name {
      TailIsSuffix(text, '/', name, i - 1);
    }
    assert ComponentAt(text, name, i, n);
  }

  predicate IsHex(c: char) {
    '0' <= c <= '9' || 'a' <= c <= 'f'
  }

  /** A crate name, a dash and sixteen hexadecimal digits. */
  predicate IsStem(s: string) {
    |s| >= 18 && s[|s| - 17] == '-' && forall i | |s| - 16 <= i < |s| :: IsHex(s[i])
  }

  predicate IsObjectTail(t: string) {
    |t| >= 9 && t[0] == '.' && t[|t| - 7..] == ".rcgu.o"
  }

  /** The longest stem of at most `k` characters that leaves an object tail. */
  function StemWithin(name: string, k: nat): Option<string>
    requires k <= |name|
  {
    if k == 0 then None
    else if IsStem(name[..k]) && IsObjectTail(name[k..]) then Some(name[..k])
    else StemWithin(name, k - 1)
  }

  /** The first group of the object pattern. */
  function ObjectStem(name: string): Option<string> {
    if '\n' in name then None else StemWithin(name, |name|)
  }

  /** The first `k` characters are a stem and the others an object tail. */
  predicate SplitsAt(name: string, k: nat) {
    k <= |name| && IsStem(name[..k]) && IsObjectTail(name[k..])
  }

  ghost predicate SplitsFrom(name: string, low: nat, high: nat) {
    exists j: nat :: low < j <= high && SplitsAt(name, j)
  }

  lemma {:induction false} NoStemWithin(name: string, k: nat)
    requires k <= |name| && StemWithin(name, k).None?
    ensures !SplitsFrom(name, 0, k)
  {
    if k > 0 {
      NoStemWithin(name, k - 1);
    }
  }

  lemma {:induction false} LongestStemWithin(name: string, k: nat)
    requires k <= |name| && StemWithin(name, k).Some?
    ensures
      var stem := StemWithin(name, k).value;
      0 < |stem| <= k && stem == name[..|stem|] && SplitsAt(name, |stem|) && !SplitsFrom(name, |stem|, k)
  {
    if !SplitsAt(name, k) {
      LongestStemWithin(name, k - 1);
    }
  }

  /** The object pattern on one line: the longest stem that leaves an object tail. */
  ghost predicate IsObjectOf(name: string, stem: string) {
    && '\n' !in name && |stem| <= |name| && stem == name[..|stem|] && SplitsAt(name, |stem|)
    && !SplitsFrom(name, |stem|, |name|)
  }

  lemma ObjectStemExact(name: string, stem: string)
    ensures ObjectStem(name) == Some(stem) <==> IsObjectOf(name, stem)
  {
    if StemWithin(name, |name|).None? {
      NoStemWithin(name, |name|);
    } else {
      LongestStemWithin(name, |name|);
    }
    if IsObjectOf(name, stem) {
      assert SplitsAt(name, |stem|) && |stem| > 0;
    }
  }

  lemma {:induction false} StemWithinFacts(name: string, k: nat)
    requires k <= |name|
    ensures StemWithin(name, k).Some? ==>
      IsStem(StemWithin(name, k).value) && |name| >= 9 && name[|name| - 7..] == ".rcgu.o"
  {
    if k > 0 {
      if IsStem(name[..k]) && IsObjectTail(name[k..]) {
        assert name[k..][|name[k..]| - 7..] == name[|name| - 7..];
      } else {
        StemWithinFacts(name, k - 1);
      }
    }
  }

  /** An object name ends in `.o`, so it is no artifact, no dep file and no executable. */
  lemma ObjectNamesEnd(name: string)
    requires ObjectStem(name).Some?
    ensures IsStem(ObjectStem(name).value)
    ensures |name| >= 2 && name[|name| - 1] == 'o' && Suffix(name) == ".o"
  {
    StemWithinFacts(name, |name|);
    var n := |name|;
    var tail := name[n - 7..];
    assert tail[5] == name[n - 2] && tail[6] == name[n - 1];
    assert name[..n - 1][n - 2] == '.';
    assert LastIndexOf(name, '.') == LastIndexOf(name[..n - 1], '.') == n - 2;
    assert name[n - 2..] == ['.', 'o'];
  }

  /** The name of a completed target's hash file: a kind, a dash and a name, with no suffix. */
  predicate IsTargetName(name: string) {
    && Suffix(name) == ""
    && (  (|name| > 5 && name[..5] == "test-") || (|name| > 4 && name[..4] == "bin-")
       || (|name| > 4 && name[..4] == "lib-") || (|name| > 8 && name[..8] == "example-"))
  }
}

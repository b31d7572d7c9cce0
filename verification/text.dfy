/** The few Python string operations the commands rely on. */
module Text {

  /** Python's `<` on `str`: lexicographic by code point, a proper prefix first. */
  predicate StrLt(a: string, b: string)
    decreases |a|
  {
    if |a| == 0 then |b| > 0
    else if |b| == 0 then false
    else if a[0] < b[0] then true
    else if a[0] == b[0] then StrLt(a[1..], b[1..])
    else false
  }

  lemma {:induction false} StrLtIrreflexive(a: string)
    ensures !StrLt(a, a)
    decreases |a|
  {
    if |a| > 0 {
      StrLtIrreflexive(a[1..]);
    }
  }

  lemma {:induction false} StrLtTransitive(a: string, b: string, c: string)
    requires StrLt(a, b) && StrLt(b, c)
    ensures StrLt(a, c)
    decreases |a|
  {
    if |a| > 0 && a[0] == b[0] && b[0] == c[0] {
      StrLtTransitive(a[1..], b[1..], c[1..]);
    }
  }

  /** Any two different strings are ordered one way, and never both ways. */
  lemma {:induction false} StrLtTotal(a: string, b: string)
    ensures a == b || StrLt(a, b) || StrLt(b, a)
    ensures !(StrLt(a, b) && StrLt(b, a))
    decreases |a|
  {
    if |a| > 0 && |b| > 0 && a[0] == b[0] {
      StrLtTotal(a[1..], b[1..]);
      if a[1..] == b[1..] {
        assert a == [a[0]] + a[1..] && b == [b[0]] + b[1..];
      }
    }
  }

  /** Every element is strictly before every later one: sorted and free of duplicates. */
  ghost predicate StrictlySorted(s: seq<string>)
  {
    forall i, j :: 0 <= i < j < |s| ==> StrLt(s[i], s[j])
  }

  /** `str.lower()` on one character; only the ASCII letters are folded. */
  function LowerChar(c: char): char
  {
    if 'A' <= c <= 'Z' then (c as int + 32) as char else c
  }

  function Lower(s: string): (r: string)
    ensures |r| == |s|
    ensures forall i :: 0 <= i < |s| ==> r[i] == LowerChar(s[i])
  {
    if |s| == 0 then [] else [LowerChar(s[0])] + Lower(s[1..])
  }

  /** Python's `s[-5:]`: the last five characters, or all of `s` when it is shorter. */
  function LastFive(s: string): (r: string)
    ensures |r| == if |s| < 5 then |s| else 5
    ensures s == s[..|s| - |r|] + r
  {
    if |s| >= 5 then s[|s| - 5..] else s
  }

  /** The release-artifact filter: the last five characters, lower-cased, are ".json". */
  predicate IsJsonName(s: string)
  {
    Lower(LastFive(s)) == ".json"
  }

  /** The filter holds exactly of names at least five long whose last five
      characters are `.json` up to ASCII letter case. */
  lemma JsonNameIff(s: string)
    ensures IsJsonName(s) <==>
      |s| >= 5 && s[|s| - 5] == '.' && LowerChar(s[|s| - 4]) == 'j' && LowerChar(s[|s| - 3]) == 's'
      && LowerChar(s[|s| - 2]) == 'o' && LowerChar(s[|s| - 1]) == 'n'
  {
    var t := Lower(LastFive(s));
    if |s| >= 5 {
      assert LastFive(s) == s[|s| - 5..];
      if IsJsonName(s) {
        assert t[0] == '.' && t[1] == 'j' && t[2] == 's' && t[3] == 'o' && t[4] == 'n';
      } else {
        assert t != ".json";
      }
    } else {
      assert |t| < 5;
    }
  }

  /** `os.path.join(path, name)` for POSIX paths. */
  function Join(path: string, name: string): string
  {
    if |name| > 0 && name[0] == '/' then name
    else if |path| == 0 || path[|path| - 1] == '/' then path + name
    else path + "/" + name
  }

  /** An absolute `name` replaces `path`; otherwise `name` follows `path` after
      exactly one separator, none being added after an empty path or one that
      already ends in `/`. */
  lemma JoinShape(path: string, name: string)
    ensures var r := Join(path, name);
      && (|name| > 0 && name[0] == '/' ==> r == name)
      && (!(|name| > 0 && name[0] == '/') ==>
            && |r| >= |path| + |name| && r[..|path|] == path && r[|r| - |name|..] == name
            && (|path| == 0 || path[|path| - 1] == '/' ==> |r| == |path| + |name|)
            && (|path| > 0 && path[|path| - 1] != '/' ==> |r| == |path| + 1 + |name| && r[|path|] == '/'))
  {
  }

  /** Joining onto the empty path, as the top of a listing does, leaves the name as it is. */
  lemma JoinOntoEmpty(name: string)
    ensures Join("", name) == name
  {
  }

  /** `t` occurs in `s` as a contiguous piece starting at index `i`. */
  ghost predicate OccursAt(t: string, s: string, i: int)
  {
    0 <= i <= |s| - |t| && s[i..i + |t|] == t
  }

  /** `t` occurs in `s` as a contiguous piece. */
  ghost predicate Occurs(t: string, s: string)
  {
    exists i :: OccursAt(t, s, i)
  }

  /** A piece of `s` is still a piece after text is added on either side. */
  lemma OccursInside(t: string, s: string, i: int, before: string, after: string)
    requires OccursAt(t, s, i)
    ensures OccursAt(t, before + s + after, |before| + i)
  {
    var w := before + s + after;
    assert w[|before| + i..|before| + i + |t|] == s[i..i + |t|];
  }
}

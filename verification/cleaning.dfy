/** The markup cleaning applied to every delta before it is buffered, and
    again to the remainder at the final flush: the characters `*`, `#` and
    backtick are deleted, everything else is kept in order. */
module Cleaning {

  /** The three markup characters the cleaning removes. */
  predicate IsMarkup(c: char) {
    c == '*' || c == '#' || c == '`'
  }

  /** No markup character occurs in `s`. */
  predicate NoMarkup(s: string) {
    forall c :: c in s ==> !IsMarkup(c)
  }

  /** No segment of the list holds a markup character. */
  predicate AllNoMarkup(ss: seq<string>) {
    forall k :: 0 <= k < |ss| ==> NoMarkup(ss[k])
  }

  lemma AllNoMarkupAppend(a: seq<string>, b: seq<string>)
    ensures AllNoMarkup(a) && AllNoMarkup(b) ==> AllNoMarkup(a + b)
  {
    if AllNoMarkup(a) && AllNoMarkup(b) {
      forall k | 0 <= k < |a + b| ensures NoMarkup((a + b)[k]) {
        if k < |a| { assert (a + b)[k] == a[k]; } else { assert (a + b)[k] == b[k - |a|]; }
      }
    }
  }

  /** `s.replace(m, '')` for a one-character `m`: every occurrence of `m`
      deleted. */
  function Remove(s: string, m: char): (r: string)
    ensures m !in r
    ensures |r| <= |s|
    ensures forall c :: c != m ==> (c in r <==> c in s)
  {
    if s == [] then []
    else (if s[0] == m then [] else [s[0]]) + Remove(s[1..], m)
  }

  /** The cleaning step: three chained replacements, in the code's order. */
  function Clean(s: string): (r: string)
    ensures NoMarkup(r)
    ensures |r| <= |s|
    ensures forall c :: !IsMarkup(c) ==> (c in r <==> c in s)
  {
    Remove(Remove(Remove(s, '*'), '#'), '`')
  }

  /** Reference definition: a single left-to-right pass that keeps the
      characters that are not markup. */
  function KeepText(s: string): string {
    if s == [] then [] else (if IsMarkup(s[0]) then [] else [s[0]]) + KeepText(s[1..])
  }

  lemma {:induction false} RemoveCons(c: char, s: string, m: char)
    ensures Remove([c] + s, m) == (if c == m then [] else [c]) + Remove(s, m)
  {
    assert ([c] + s)[1..] == s;
  }

  /** The chained replacements delete exactly the markup characters and keep
      every other character in its original order. */
  lemma {:induction false} CleanIsKeepText(s: string)
    ensures Clean(s) == KeepText(s)
    decreases |s|
  {
    if s != [] {
      var c, t := s[0], s[1..];
      assert s == [c] + t;
      var t1 := Remove(t, '*');
      var t2 := Remove(t1, '#');
      CleanIsKeepText(t);
      RemoveCons(c, t, '*');
      if c == '*' {
        assert Remove(s, '*') == [] + t1 == t1;
      } else {
        RemoveCons(c, t1, '#');
        if c == '#' {
          assert Remove(Remove(s, '*'), '#') == [] + t2 == t2;
        } else {
          RemoveCons(c, t2, '`');
          assert Clean(s) == (if c == '`' then [] else [c]) + Clean(t);
        }
      }
      assert KeepText(s) == (if IsMarkup(c) then [] else [c]) + KeepText(t);
    }
  }

  lemma {:induction false} RemoveAppend(a: string, b: string, m: char)
    ensures Remove(a + b, m) == Remove(a, m) + Remove(b, m)
    decreases |a|
  {
    if a != [] {
      assert (a + b)[1..] == a[1..] + b;
      RemoveAppend(a[1..], b, m);
    } else {
      assert a + b == b;
    }
  }

  /** Cleaning fragment by fragment is the same as cleaning their
      concatenation: chunk boundaries do not matter. */
  lemma CleanAppend(a: string, b: string)
    ensures Clean(a + b) == Clean(a) + Clean(b)
  {
    RemoveAppend(a, b, '*');
    RemoveAppend(Remove(a, '*'), Remove(b, '*'), '#');
    RemoveAppend(Remove(Remove(a, '*'), '#'), Remove(Remove(b, '*'), '#'), '`');
  }

  lemma {:induction false} RemoveAbsent(s: string, m: char)
    requires m !in s
    ensures Remove(s, m) == s
    decreases |s|
  {
    if s != [] {
      forall c | c in s[1..] ensures c in s {
        var k :| 0 <= k < |s[1..]| && s[1..][k] == c;
        assert s[k + 1] == c;
      }
      RemoveAbsent(s[1..], m);
    }
  }

  /** Cleaning a string that holds no markup changes nothing, so the second
      cleaning at the final flush is a no-op. */
  lemma CleanNoMarkupIsIdentity(s: string)
    requires NoMarkup(s)
    ensures Clean(s) == s
  {
    RemoveAbsent(s, '*');
    RemoveAbsent(s, '#');
    RemoveAbsent(s, '`');
  }

  /** Cleaning is idempotent. */
  lemma CleanIdempotent(s: string)
    ensures Clean(Clean(s)) == Clean(s)
  {
    CleanNoMarkupIsIdentity(Clean(s));
  }

  lemma NoMarkupByIndex(s: string)
    requires forall i :: 0 <= i < |s| ==> !IsMarkup(s[i])
    ensures NoMarkup(s)
  {
    forall c | c in s ensures !IsMarkup(c) {
      var k :| 0 <= k < |s| && s[k] == c;
    }
  }

  /** Slices of markup-free text are markup-free. */
  lemma NoMarkupSlice(s: string, i: nat, j: nat)
    requires NoMarkup(s) && i <= j <= |s|
    ensures NoMarkup(s[i..j])
  {
    forall c | c in s[i..j] ensures !IsMarkup(c) {
      var k :| i <= k < j && s[k] == c;
    }
  }

  lemma NoMarkupAppend(a: string, b: string)
    requires NoMarkup(a) && NoMarkup(b)
    ensures NoMarkup(a + b)
  {
    forall c | c in a + b ensures !IsMarkup(c) {
      var k :| 0 <= k < |a + b| && (a + b)[k] == c;
      if k < |a| { assert a[k] == c; } else { assert b[k - |a|] == c; }
    }
  }
}

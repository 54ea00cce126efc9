/** The string operations the script uses on attribute keys:
    `includes` / `indexOf`, `replace` with a string pattern (first
    occurrence only) and `split`. */
module Strings {
  import opened Wrappers

  /** `p` occurs in `s` starting at index `i`. */
  predicate OccursAt(s: string, p: string, i: int) {
    0 <= i && i + |p| <= |s| && s[i..i + |p|] == p
  }

  /** `s.includes(p)`, equivalently `s.indexOf(p) > -1`. */
  predicate Contains(s: string, p: string) {
    exists i :: 0 <= i <= |s| && OccursAt(s, p, i)
  }

  /** The search behind `s.indexOf(p)`, starting at index `k`. */
  function IndexFrom(s: string, p: string, k: nat): (r: int)
    ensures r == -1 || (k <= r && OccursAt(s, p, r))
    ensures r == -1 ==> forall j :: k <= j ==> !OccursAt(s, p, j)
    ensures r != -1 ==> forall j :: k <= j < r ==> !OccursAt(s, p, j)
    decreases |s| - k
  {
    if k + |p| > |s| then -1
    else if s[k..k + |p|] == p then k
    else IndexFrom(s, p, k + 1)
  }

  /** `s.indexOf(p)`: the first index at which `p` occurs, or -1. */
  function IndexOf(s: string, p: string): (r: int)
    ensures r == -1 <==> !Contains(s, p)
    ensures r != -1 ==> OccursAt(s, p, r) && forall j :: 0 <= j < r ==> !OccursAt(s, p, j)
  {
    IndexFrom(s, p, 0)
  }

  /** `s.replace(p, rep)` with a string pattern and a replacement that holds
      no `$` patterns: only the first occurrence is replaced. */
  function ReplaceFirst(s: string, p: string, rep: string): (r: string)
    ensures !Contains(s, p) ==> r == s
  {
    var i := IndexOf(s, p);
    if i == -1 then s else s[..i] + rep + s[i + |p|..]
  }

  /** Replacing the first occurrence: when `p` occurs in `a + p + b` at
      `|a|` and nowhere before, `a`'s occurrence is the one replaced. */
  lemma ReplaceFirstAt(a: string, p: string, b: string, rep: string)
    requires forall j :: 0 <= j < |a| ==> !OccursAt(a + p + b, p, j)
    ensures ReplaceFirst(a + p + b, p, rep) == a + rep + b
  {
    var s := a + p + b;
    assert s[|a|..|a| + |p|] == p;
    assert OccursAt(s, p, |a|);
    var i := IndexOf(s, p);
    assert i == |a|;
    assert s[..i] == a;
    assert s[i + |p|..] == b;
  }

  /** The key of the fossil-fuel layer for a renewable-energy key:
      `attribute.replace("ren", "ff")`. A key without "ren" is its own
      fossil key. */
  function FossilKey(key: string): (fk: string)
    ensures !Contains(key, "ren") ==> fk == key
  {
    ReplaceFirst(key, "ren", "ff")
  }

  /** Once a key names renewables, its fossil key contains "ff". */
  lemma FossilKeyContainsFf(key: string)
    requires Contains(key, "ren")
    ensures Contains(FossilKey(key), "ff")
  {
    var i := IndexOf(key, "ren");
    var r := FossilKey(key);
    assert r == key[..i] + "ff" + key[i + 3..];
    assert r[i..i + 2] == "ff";
    assert OccursAt(r, "ff", i);
  }

  /** `s.split(sep)` with a one-character separator: the fields between
      separators, always one more than there are separators. */
  function Split(s: string, sep: char): (fields: seq<string>)
    ensures |fields| >= 1
  {
    if s == [] then [[]]
    else
      var rest := Split(s[1..], sep);
      if s[0] == sep then [[]] + rest
      else rest[0 := [s[0]] + rest[0]]
  }

  /** `fields.join(sep)`, the inverse of `Split`. */
  function Join(fields: seq<string>, sep: char): string
    requires |fields| >= 1
  {
    if |fields| == 1 then fields[0] else fields[0] + [sep] + Join(fields[1..], sep)
  }

  lemma {:induction false} JoinSplit(s: string, sep: char)
    ensures Join(Split(s, sep), sep) == s
  {
    if s != [] {
      JoinSplit(s[1..], sep);
      var rest := Split(s[1..], sep);
      if s[0] == sep {
        assert Split(s, sep)[1..] == rest;
      } else if |rest| > 1 {
        assert Split(s, sep)[1..] == rest[1..];
      }
    }
  }

  /** A separator-free prefix joins the first field. */
  lemma {:induction false} SplitPrefix(w: string, z: string, sep: char)
    requires sep !in w
    ensures Split(w + z, sep) == Split(z, sep)[0 := w + Split(z, sep)[0]]
  {
    if w == [] {
      assert w + z == z;
      assert w + Split(z, sep)[0] == Split(z, sep)[0];
    } else {
      var w1, sz := w[1..], Split(z, sep);
      SplitPrefix(w1, z, sep);
      var r := Split(w1 + z, sep);
      assert r == sz[0 := w1 + sz[0]];
      assert (w + z)[1..] == w1 + z && (w + z)[0] == w[0];
      assert Split(w + z, sep) == r[0 := [w[0]] + r[0]];
      assert [w[0]] + (w1 + sz[0]) == w + sz[0];
      assert r[0 := [w[0]] + r[0]] == sz[0 := w + sz[0]];
    }
  }

  /** No field of a split holds the separator. */
  lemma {:induction false} SplitFieldsFree(s: string, sep: char)
    ensures forall k :: 0 <= k < |Split(s, sep)| ==> sep !in Split(s, sep)[k]
  {
    if s != [] {
      SplitFieldsFree(s[1..], sep);
    }
  }

  lemma {:induction false} SplitJoin(fields: seq<string>, sep: char)
    requires |fields| >= 1
    requires forall k :: 0 <= k < |fields| ==> sep !in fields[k]
    ensures Split(Join(fields, sep), sep) == fields
  {
    if |fields| == 1 {
      SplitPrefix(fields[0], [], sep);
      assert fields[0] + [] == fields[0];
    } else {
      SplitJoin(fields[1..], sep);
      var tail := [sep] + Join(fields[1..], sep);
      assert Join(fields, sep) == fields[0] + tail;
      SplitPrefix(fields[0], tail, sep);
      assert tail[0] == sep && tail[1..] == Join(fields[1..], sep);
      assert Split(tail, sep) == [[]] + fields[1..];
      assert fields[0] + [] == fields[0];
      assert ([[]] + fields[1..])[0 := fields[0]] == fields;
    }
  }

  /** The year token: `attribute.split("_")[2]`, `None` when the key has
      fewer than three fields (JavaScript gives `undefined`). It is defined
      exactly when the key has at least two separators, and a token never
      contains a separator. */
  function YearField(key: string): (year: Option<string>)
    ensures year.Some? <==> |Split(key, '_')| >= 3
    ensures year.Some? ==> '_' !in year.value
  {
    var fields := Split(key, '_');
    SplitFieldsFree(key, '_');
    if |fields| > 2 then Some(fields[2]) else None
  }

  /** The year token is the third `_`-separated field, whatever follows
      it from the next separator on. */
  lemma YearFieldOfKey(a: string, b: string, y: string, rest: string)
    requires '_' !in a && '_' !in b && '_' !in y
    requires rest == [] || rest[0] == '_'
    ensures YearField(a + "_" + b + "_" + y + rest) == Some(y)
  {
    var t3 := y + rest;
    var t2 := "_" + t3;
    var t1 := b + t2;
    var t0 := "_" + t1;
    assert a + "_" + b + "_" + y + rest == a + t0;
    assert Split(rest, '_')[0] == [];
    SplitPrefix(y, rest, '_');
    assert y + [] == y;
    assert Split(t3, '_')[0] == y;
    assert t2[0] == '_' && t2[1..] == t3;
    SplitPrefix(b, t2, '_');
    assert Split(t1, '_')[1] == y;
    assert t0[0] == '_' && t0[1..] == t1;
    SplitPrefix(a, t0, '_');
    assert Split(a + t0, '_')[2] == y;
  }

  lemma {:induction false} ReplacePieceLength(x: string, w: string, w': string, z: string, sep: char)
    requires sep !in w && sep !in w'
    ensures |Split(x + w + z, sep)| == |Split(x + w' + z, sep)|
  {
    if x == [] {
      assert x + w + z == w + z;
      assert x + w' + z == w' + z;
      SplitPrefix(w, z, sep);
      SplitPrefix(w', z, sep);
    } else {
      var x1 := x[1..];
      assert (x + w + z)[1..] == x1 + w + z && (x + w + z)[0] == x[0];
      assert (x + w' + z)[1..] == x1 + w' + z && (x + w' + z)[0] == x[0];
      ReplacePieceLength(x1, w, w', z, sep);
    }
  }

  /** Replacing a separator-free piece `w` of `x + w + z` by another one
      changes only the field that holds it, field number |Split(x)| - 1:
      the number of fields and every other field stay. */
  lemma {:induction false} ReplacePiece(x: string, w: string, w': string, z: string, sep: char, k: int)
    requires sep !in w && sep !in w'
    requires 0 <= k < |Split(x + w + z, sep)| && k != |Split(x, sep)| - 1
    ensures |Split(x + w + z, sep)| == |Split(x + w' + z, sep)|
    ensures Split(x + w + z, sep)[k] == Split(x + w' + z, sep)[k]
  {
    ReplacePieceLength(x, w, w', z, sep);
    if x == [] {
      assert x + w + z == w + z;
      assert x + w' + z == w' + z;
      SplitPrefix(w, z, sep);
      SplitPrefix(w', z, sep);
    } else {
      var x1 := x[1..];
      assert (x + w + z)[1..] == x1 + w + z && (x + w + z)[0] == x[0];
      assert (x + w' + z)[1..] == x1 + w' + z && (x + w' + z)[0] == x[0];
      if x[0] != sep {
        ReplacePiece(x1, w, w', z, sep, k);
      } else if k > 0 {
        ReplacePiece(x1, w, w', z, sep, k - 1);
      }
    }
  }

  /** The fossil key names the same year as the renewable key, unless the
      first "ren" sits inside the year field itself. */
  lemma FossilKeyKeepsYear(key: string)
    requires Contains(key, "ren")
    requires |Split(key[..IndexOf(key, "ren")], '_')| != 3
    ensures YearField(FossilKey(key)) == YearField(key)
  {
    var i := IndexOf(key, "ren");
    var x, z := key[..i], key[i + 3..];
    assert key == x + "ren" + z;
    assert FossilKey(key) == x + "ff" + z;
    ReplacePieceLength(x, "ren", "ff", z, '_');
    if |Split(key, '_')| > 2 {
      ReplacePiece(x, "ren", "ff", z, '_', 2);
    }
  }
}

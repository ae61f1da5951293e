/**
 * `normalizePaths` (src/index.ts:17-27): skip empty entries, trim the rest,
 * make each start with '/', and remove duplicates keeping the first.
 */
module PathNormalizer {
  import opened Strings
  import opened Sequences

  /** One entry as the loop rewrites it: trimmed, then given a leading '/'
      unless it already has one. A trailing '/' is kept. */
  function NormalizeEntry(p: string): (s: string)
    ensures "/" <= s
    ensures s == Trim(p) || s == "/" + Trim(p)
    ensures s == Trim(p) <==> "/" <= Trim(p)
  {
    var t := Trim(p);
    if "/" <= t then t else "/" + t
  }

  /** A normalised entry is already normal: normalising twice changes nothing. */
  lemma NormalizeEntryIdempotent(p: string)
    ensures NormalizeEntry(NormalizeEntry(p)) == NormalizeEntry(p)
  {
    var s := NormalizeEntry(p);
    var t := Trim(p);
    assert IsTrimmed(t);
    assert IsTrimmed(s) by {
      if s != t {
        assert s[0] == '/' && (t == [] || s[|s| - 1] == t[|t| - 1]);
      }
    }
    TrimIdentity(s);
  }

  /** Normalising adds no character other than '/'. */
  lemma NormalizeEntryChars(p: string, c: char)
    requires c in NormalizeEntry(p) && c != '/'
    ensures c in p
  {
    var s, t := NormalizeEntry(p), Trim(p);
    if s != t {
      var n :| 0 <= n < |s| && s[n] == c;
      assert t[n - 1] == c;
    }
    TrimChars(p, c);
  }

  /** Does `normalizePaths` keep entry `p`? `if (!p) continue;` skips only the
      empty string, and it tests `p` before trimming it. */
  predicate Kept(p: string): (b: bool)
    ensures p == "" ==> !b
    ensures Trim(p) != "" ==> b
  {
    p != ""
  }

  /** An entry made only of whitespace is not empty, so it is kept, and it
      trims to "" and becomes "/": the emptiness test comes before trimming. */
  lemma WhitespaceEntryBecomesRoot(p: string)
    requires p != "" && forall k :: 0 <= k < |p| ==> IsWhitespace(p[k])
    ensures Kept(p) && NormalizeEntry(p) == "/"
  {
    TrimAllWhitespace(p);
  }

  /** The normalised forms of the kept entries of `paths`, as a set. */
  function NormalForms(paths: seq<string>): set<string>
  {
    set k | 0 <= k < |paths| && Kept(paths[k]) :: NormalizeEntry(paths[k])
  }

  /** One more entry adds at most its own normal form. */
  lemma NormalFormsSnoc(paths: seq<string>, p: string)
    ensures NormalForms(paths + [p]) == NormalForms(paths) + if Kept(p) then {NormalizeEntry(p)} else {}
  {
    var ps := paths + [p];
    forall x | x in NormalForms(ps) ensures x in NormalForms(paths) || (Kept(p) && x == NormalizeEntry(p)) {
      var k :| 0 <= k < |ps| && Kept(ps[k]) && x == NormalizeEntry(ps[k]);
      if k < |paths| {
        assert ps[k] == paths[k];
      }
    }
    forall x | x in NormalForms(paths) ensures x in NormalForms(ps) {
      var k :| 0 <= k < |paths| && Kept(paths[k]) && x == NormalizeEntry(paths[k]);
      assert ps[k] == paths[k];
    }
    if Kept(p) {
      assert ps[|paths|] == p;
    }
  }

  /** The `out` array once the loop has run over `paths`. */
  function Pushed(paths: seq<string>): (out: seq<string>)
    ensures |out| <= |paths|
    ensures forall i :: 0 <= i < |out| ==> "/" <= out[i]
    ensures forall x :: x in out <==> x in NormalForms(paths)
  {
    if paths == [] then []
    else
      var prev := paths[..|paths| - 1];
      var p := paths[|paths| - 1];
      NormalFormsSnoc(prev, p);
      assert paths == prev + [p];
      if Kept(p) then Pushed(prev) + [NormalizeEntry(p)] else Pushed(prev)
  }

  /** When no entry is empty, every entry is pushed, in order, in normalised form. */
  lemma {:induction false} PushedAllKept(paths: seq<string>)
    requires forall i :: 0 <= i < |paths| ==> Kept(paths[i])
    ensures |Pushed(paths)| == |paths|
    ensures forall i :: 0 <= i < |paths| ==> Pushed(paths)[i] == NormalizeEntry(paths[i])
  {
    if paths != [] {
      var prev, p := paths[..|paths| - 1], paths[|paths| - 1];
      PushedAllKept(prev);
      PushedSnocKept(prev, p);
      assert paths == prev + [p];
    }
  }

  /** Pushing a kept entry appends its normal form. */
  lemma PushedSnocKept(prev: seq<string>, p: string)
    requires Kept(p)
    requires |Pushed(prev)| == |prev|
    requires forall i :: 0 <= i < |prev| ==> Pushed(prev)[i] == NormalizeEntry(prev[i])
    ensures |Pushed(prev + [p])| == |prev + [p]|
    ensures forall i :: 0 <= i < |prev + [p]| ==> Pushed(prev + [p])[i] == NormalizeEntry((prev + [p])[i])
  {
    var paths := prev + [p];
    assert paths[..|paths| - 1] == prev;
    var out := Pushed(paths);
    assert out == Pushed(prev) + [NormalizeEntry(p)];
    forall i | 0 <= i < |paths| ensures out[i] == NormalizeEntry(paths[i]) {
      if i < |prev| {
        assert paths[i] == prev[i];
      }
    }
  }

  /** A single entry pushes its normal form when it is kept, and nothing otherwise. */
  lemma PushedSingle(p: string)
    ensures Pushed([p]) == if Kept(p) then [NormalizeEntry(p)] else []
  {
    assert [p][..0] == [];
  }

  /** The loop treats the entries one at a time and only appends, so `out`
      for a concatenation is the two `out`s one after the other: order and
      multiplicity are those of the input. */
  lemma {:induction false} PushedAppend(a: seq<string>, b: seq<string>)
    ensures Pushed(a + b) == Pushed(a) + Pushed(b)
    decreases |b|
  {
    if b == [] {
      assert a + b == a;
    } else {
      var b', p := b[..|b| - 1], b[|b| - 1];
      var ab := a + b;
      assert ab[..|ab| - 1] == a + b' && ab[|ab| - 1] == p;
      PushedAppend(a, b');
    }
  }

  /** `normalizePaths(paths)`. */
  function Normalize(paths: seq<string>): (r: seq<string>)
    ensures NoDuplicates(r)
    ensures forall i :: 0 <= i < |r| ==> "/" <= r[i]
    ensures forall x :: x in r <==> x in NormalForms(paths)
    ensures IsDedupOf(r, Pushed(paths))
  {
    var out := Pushed(paths);
    var r := Dedup(out);
    assert forall i :: 0 <= i < |r| ==> r[i] in out;
    r
  }

  /** The source's two steps as written: the `for … of` loop that fills `out`,
      then `Array.from(new Set(out))`, with the set kept as `seen`. */
  method NormalizePaths(paths: seq<string>) returns (r: seq<string>)
    ensures r == Normalize(paths)
  {
    var out: seq<string> := [];
    for i := 0 to |paths|
      invariant out == Pushed(paths[..i])
    {
      assert paths[..i + 1][..i] == paths[..i];
      var p := paths[i];
      if p != "" {
        var s := Trim(p);
        if !("/" <= s) {
          s := "/" + s;
        }
        out := out + [s];
      }
    }
    assert paths[..|paths|] == paths;
    var seen: set<string> := {};
    r := [];
    for i := 0 to |out|
      invariant r == Dedup(out[..i])
      invariant forall x :: x in seen <==> x in r
    {
      assert out[..i + 1][..i] == out[..i];
      if out[i] !in seen {
        seen := seen + {out[i]};
        r := r + [out[i]];
      }
    }
    assert out[..|out|] == out;
  }
}

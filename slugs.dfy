/** Slug derivation shared by resumes and projects: lower-case the title,
    turn each run of characters outside `[a-z0-9]` into one `-`, then trim
    `-` from both ends. */
module Slugs {
  import opened Common
  import opened Ascii

  predicate IsSlugChar(c: char) {
    IsLowerAlnum(c) || c == '-'
  }

  /** Made of `[a-z0-9-]` with no `--`: what collapsing produces. */
  predicate Collapsed(s: string) {
    && (forall i :: 0 <= i < |s| ==> IsSlugChar(s[i]))
    && (forall i :: 0 <= i < |s| - 1 ==> !(s[i] == '-' && s[i + 1] == '-'))
  }

  /** The shape every derived slug has. */
  predicate SlugShaped(s: string) {
    Collapsed(s) && (s != [] ==> s[0] != '-' && s[|s| - 1] != '-')
  }

  /** Drops the run of characters outside `[a-z0-9]` at the front of s. */
  function DropSeparators(s: string): (r: string)
    ensures |r| <= |s| && r == s[|s| - |r|..]
    ensures forall i :: 0 <= i < |s| - |r| ==> !IsLowerAlnum(s[i])
    ensures r == [] || IsLowerAlnum(r[0])
    decreases |s|
  {
    if s == [] || IsLowerAlnum(s[0]) then s else DropSeparators(s[1..])
  }

  /** `replace(/[^a-z0-9]+/g, '-')`: each maximal run of characters outside
      `[a-z0-9]` becomes a single `-`. */
  function CollapseSeparators(s: string): (r: string)
    ensures Collapsed(r)
    ensures r == [] <==> s == []
    ensures r != [] ==> (r[0] == '-' <==> !IsLowerAlnum(s[0]))
    decreases |s|
  {
    if s == [] then []
    else if IsLowerAlnum(s[0]) then [s[0]] + CollapseSeparators(s[1..])
    else "-" + CollapseSeparators(DropSeparators(s[1..]))
  }

  /** `replace(/^-+/, '')` */
  function TrimLeadingDashes(s: string): (r: string)
    ensures |r| <= |s| && r == s[|s| - |r|..]
    ensures forall i :: 0 <= i < |s| - |r| ==> s[i] == '-'
    ensures r == [] || r[0] != '-'
    decreases |s|
  {
    if s != [] && s[0] == '-' then TrimLeadingDashes(s[1..]) else s
  }

  /** `replace(/-+$/, '')` */
  function TrimTrailingDashes(s: string): (r: string)
    ensures |r| <= |s| && r == s[..|r|]
    ensures forall i :: |r| <= i < |s| ==> s[i] == '-'
    ensures r == [] || r[|r| - 1] != '-'
    decreases |s|
  {
    if s != [] && s[|s| - 1] == '-' then TrimTrailingDashes(s[..|s| - 1]) else s
  }

  /** `replace(/^-+|-+$/g, '')`: the result neither starts nor ends with
      `-`, keeps every letter and digit, keeps a collapsed string collapsed,
      and is the input itself when neither end is a `-`. */
  function TrimDashes(s: string): (r: string)
    ensures r != [] ==> r[0] != '-' && r[|r| - 1] != '-'
    ensures KeepLowerAlnum(r) == KeepLowerAlnum(s)
    ensures Collapsed(s) ==> Collapsed(r)
    ensures (s != [] ==> s[0] != '-' && s[|s| - 1] != '-') ==> r == s
  {
    var l := TrimLeadingDashes(s);
    var t := TrimTrailingDashes(l);
    TrimLeadingKeepsAlnum(s);
    TrimTrailingKeepsAlnum(l);
    assert Collapsed(s) ==> Collapsed(t) by {
      if Collapsed(s) {
        SliceCollapsed(s, |s| - |l|, |s|);
        SliceCollapsed(l, 0, |t|);
      }
    }
    assert t != [] ==> t[0] == l[0];
    assert (s != [] ==> s[0] != '-' && s[|s| - 1] != '-') ==> l == s && t == s;
    t
  }

  /** The slug a title yields when no slug is supplied: only `[a-z0-9-]`,
      no `--`, no `-` at either end, and exactly the letters and digits of
      the lower-cased title, in order. */
  function Slugify(title: string): (r: string)
    ensures SlugShaped(r)
    ensures KeepLowerAlnum(r) == KeepLowerAlnum(LowerString(title))
  {
    CollapseKeepsAlnum(LowerString(title));
    TrimDashes(CollapseSeparators(LowerString(title)))
  }

  /** `dto.slug || <derived from dto.title>`: a supplied non-empty slug is
      used verbatim, otherwise the derived one. */
  function ResolveSlug(supplied: Option<string>, title: string): (r: string)
    ensures Truthy(supplied) ==> r == supplied.value
    ensures !Truthy(supplied) ==> r == Slugify(title) && SlugShaped(r)
  {
    if Truthy(supplied) then supplied.value
    else Slugify(title)
  }

  lemma SliceCollapsed(s: string, a: nat, b: nat)
    requires a <= b <= |s| && Collapsed(s)
    ensures Collapsed(s[a..b])
  {
    var t := s[a..b];
    assert forall i :: 0 <= i < |t| ==> t[i] == s[a + i];
  }

  /** Removing characters outside `[a-z0-9]` from the front keeps the
      letters and digits. */
  lemma {:induction false} DropSeparatorsKeepsAlnum(s: string)
    ensures KeepLowerAlnum(DropSeparators(s)) == KeepLowerAlnum(s)
    decreases |s|
  {
    if s != [] && !IsLowerAlnum(s[0]) {
      DropSeparatorsKeepsAlnum(s[1..]);
    }
  }

  lemma {:induction false} CollapseKeepsAlnum(s: string)
    ensures KeepLowerAlnum(CollapseSeparators(s)) == KeepLowerAlnum(s)
    decreases |s|
  {
    if s != [] {
      if IsLowerAlnum(s[0]) {
        CollapseKeepsAlnum(s[1..]);
        assert ([s[0]] + CollapseSeparators(s[1..]))[1..] == CollapseSeparators(s[1..]);
      } else {
        var d := DropSeparators(s[1..]);
        CollapseKeepsAlnum(d);
        DropSeparatorsKeepsAlnum(s[1..]);
        assert ("-" + CollapseSeparators(d))[1..] == CollapseSeparators(d);
      }
    }
  }

  /** A string of dashes has no letters or digits. */
  lemma {:induction false} DashesKeepNothing(s: string)
    requires forall i :: 0 <= i < |s| ==> s[i] == '-'
    ensures KeepLowerAlnum(s) == []
    decreases |s|
  {
    if s != [] {
      DashesKeepNothing(s[1..]);
    }
  }

  /** Trimming dashes from the front keeps the letters and digits. */
  lemma TrimLeadingKeepsAlnum(s: string)
    ensures KeepLowerAlnum(TrimLeadingDashes(s)) == KeepLowerAlnum(s)
  {
    var l := TrimLeadingDashes(s);
    var d := s[..|s| - |l|];
    assert s == d + l;
    KeepLowerAlnumAppend(d, l);
    DashesKeepNothing(d);
  }

  /** Trimming dashes from the end keeps the letters and digits. */
  lemma TrimTrailingKeepsAlnum(s: string)
    ensures KeepLowerAlnum(TrimTrailingDashes(s)) == KeepLowerAlnum(s)
  {
    var t := TrimTrailingDashes(s);
    var d := s[|t|..];
    assert s == t + d;
    KeepLowerAlnumAppend(t, d);
    DashesKeepNothing(d);
  }

  /** Collapsing leaves a string of `[a-z0-9-]` without `--` unchanged. */
  lemma {:induction false} CollapseFixed(s: string)
    requires Collapsed(s)
    ensures CollapseSeparators(s) == s
    decreases |s|
  {
    if s != [] {
      CollapseFixed(s[1..]);
      if !IsLowerAlnum(s[0]) {
        assert DropSeparators(s[1..]) == s[1..];
      }
    }
  }

  /** A string of the slug shape is its own slug. */
  lemma SlugifyFixed(s: string)
    requires SlugShaped(s)
    ensures Slugify(s) == s
  {
    assert forall i :: 0 <= i < |s| ==> IsSlugChar(s[i]);
    LowerStringFixed(s);
    CollapseFixed(s);
    assert TrimLeadingDashes(s) == s;
    assert TrimTrailingDashes(s) == s;
  }

  /** Deriving a slug from a derived slug gives it back. */
  lemma SlugifyIdempotent(title: string)
    ensures Slugify(Slugify(title)) == Slugify(title)
  {
    SlugifyFixed(Slugify(title));
  }

  /** Removing a run of separators that ends where a letter or digit (or
      the string) begins. */
  lemma {:induction false} DropRun(sep: string, y: string)
    requires forall i :: 0 <= i < |sep| ==> !IsLowerAlnum(sep[i])
    requires y == [] || IsLowerAlnum(y[0])
    ensures DropSeparators(sep + y) == y
    decreases |sep|
  {
    if sep == [] {
      assert sep + y == y;
    } else {
      assert (sep + y)[1..] == sep[1..] + y;
      DropRun(sep[1..], y);
    }
  }

  /** Dropping separators that end inside a stops before b. */
  lemma {:induction false} DropAppend(a: string, b: string)
    requires DropSeparators(a) != []
    ensures DropSeparators(a + b) == DropSeparators(a) + b
    decreases |a|
  {
    if !IsLowerAlnum(a[0]) {
      assert (a + b)[1..] == a[1..] + b;
      DropAppend(a[1..], b);
    }
  }

  /** Collapsing works piecewise across a cut right after a letter or digit. */
  lemma {:induction false} CollapseAppend(x: string, z: string)
    requires x == [] || IsLowerAlnum(x[|x| - 1])
    ensures CollapseSeparators(x + z) == CollapseSeparators(x) + CollapseSeparators(z)
    decreases |x|
  {
    if x == [] {
      assert x + z == z;
    } else if IsLowerAlnum(x[0]) {
      assert (x + z)[1..] == x[1..] + z;
      CollapseAppend(x[1..], z);
    } else {
      var rest := x[1..];
      assert rest[|rest| - 1] == x[|x| - 1];
      var d := DropSeparators(rest);
      assert d != [];
      assert d[|d| - 1] == x[|x| - 1];
      assert (x + z)[1..] == rest + z;
      DropAppend(rest, z);
      CollapseAppend(d, z);
    }
  }

  /** A run of separators in front of a letter, a digit or the end becomes
      one `-`. */
  lemma {:induction false} CollapseRun(sep: string, y: string)
    requires sep != [] && forall i :: 0 <= i < |sep| ==> !IsLowerAlnum(sep[i])
    requires y == [] || IsLowerAlnum(y[0])
    ensures CollapseSeparators(sep + y) == "-" + CollapseSeparators(y)
  {
    assert (sep + y)[0] == sep[0];
    assert (sep + y)[1..] == sep[1..] + y;
    DropRun(sep[1..], y);
  }

  /** A maximal run of separators between x and y becomes exactly one `-`,
      and both sides are collapsed on their own: "a b" gives "a-b". */
  lemma {:induction false} CollapseAround(x: string, sep: string, y: string)
    requires x == [] || IsLowerAlnum(x[|x| - 1])
    requires sep != [] && forall i :: 0 <= i < |sep| ==> !IsLowerAlnum(sep[i])
    requires y == [] || IsLowerAlnum(y[0])
    ensures CollapseSeparators(x + sep + y) == CollapseSeparators(x) + "-" + CollapseSeparators(y)
  {
    var tail := sep + y;
    Regroup(x, sep, y);
    CollapseRun(sep, y);
    CollapseAppend(x, tail);
    Regroup(CollapseSeparators(x), "-", CollapseSeparators(y));
  }

  /** Concatenation regrouped. */
  lemma Regroup<T>(a: seq<T>, b: seq<T>, c: seq<T>)
    ensures a + b + c == a + (b + c)
  {
  }

  /** Separators collapse and trailing ones are trimmed: "A b!" gives "a-b". */
  lemma SlugifyExample()
    ensures Slugify("A b!") == "a-b"
  {
    assert LowerString("A b!") == "a b!";
    assert CollapseSeparators("") == "";
    assert DropSeparators("") == "";
    assert CollapseSeparators("!") == "-";
    assert CollapseSeparators("b!") == "b-";
    assert DropSeparators("b!") == "b!";
    assert CollapseSeparators(" b!") == "-b-";
    assert CollapseSeparators("a b!") == "a-b-";
    assert TrimLeadingDashes("a-b-") == "a-b-";
    assert TrimTrailingDashes("a-b") == "a-b";
  }
}

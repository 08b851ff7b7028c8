/** Filename sanitiser for texture tiles (scripts/sanitize_filenames.py):
    problematic characters become `_`, runs of `_` collapse, one `_` before
    the extension is dropped; then the `.b3dm` files of a directory are
    renamed and the references to them in `tileset.json` are rewritten. */
module Sanitize {

  // ---------------------------------------------------------------------
  // Python string primitives
  // ---------------------------------------------------------------------

  /** `p` occurs in `s` starting at index `i`. */
  predicate OccursAt(s: string, p: string, i: nat) {
    i + |p| <= |s| && s[i..i + |p|] == p
  }

  /** `p in s` for strings. */
  predicate Contains(s: string, p: string) {
    exists i: nat :: i <= |s| && OccursAt(s, p, i)
  }

  /** `s.endswith(suffix)`. */
  predicate EndsWith(s: string, suffix: string) {
    |suffix| <= |s| && s[|s| - |suffix|..] == suffix
  }

  /** `s.replace(p, r)` for a non-empty `p`: the leftmost occurrence is
      replaced and the search resumes after it. */
  function ReplaceAll(s: string, p: string, r: string): string
    requires |p| > 0
    decreases |s|
  {
    if |s| < |p| then s
    else if s[..|p|] == p then r + ReplaceAll(s[|p|..], p, r)
    else [s[0]] + ReplaceAll(s[1..], p, r)
  }

  /** A pattern that does not occur is left alone. */
  lemma {:induction false} ReplaceAbsent(s: string, p: string, r: string)
    requires |p| > 0 && !Contains(s, p)
    ensures ReplaceAll(s, p, r) == s
    decreases |s|
  {
    if |p| <= |s| {
      assert s[0..0 + |p|] == s[..|p|];
      assert !OccursAt(s, p, 0);
      assert ReplaceAll(s, p, r) == [s[0]] + ReplaceAll(s[1..], p, r);
      assert !Contains(s[1..], p) by {
        forall i: nat | i <= |s[1..]| ensures !OccursAt(s[1..], p, i) {
          assert !OccursAt(s, p, i + 1);
          if i + |p| <= |s[1..]| {
            assert s[1..][i..i + |p|] == s[i + 1..i + 1 + |p|];
          }
        }
      }
      ReplaceAbsent(s[1..], p, r);
      assert s == [s[0]] + s[1..];
    }
  }

  /** Where the pattern occurs, the replacement shows up in the result. */
  lemma {:induction false} ReplaceIntroduces(s: string, p: string, r: string)
    requires |p| > 0 && Contains(s, p)
    ensures Contains(ReplaceAll(s, p, r), r)
    decreases |s|
  {
    var out := ReplaceAll(s, p, r);
    if s[..|p|] == p {
      OccursAtFront(r, ReplaceAll(s[|p|..], p, r));
    } else {
      var i: nat :| i <= |s| && OccursAt(s, p, i);
      assert i != 0 by { assert s[0..0 + |p|] == s[..|p|]; }
      OccursDropFirst(s, p, i);
      ReplaceIntroduces(s[1..], p, r);
      var rest := ReplaceAll(s[1..], p, r);
      var j: nat :| j <= |rest| && OccursAt(rest, r, j);
      OccursAddFirst(s[0], rest, r, j);
    }
  }

  lemma OccursAtFront(p: string, t: string)
    ensures OccursAt(p + t, p, 0)
  {
    assert (p + t)[0..0 + |p|] == p;
  }

  lemma OccursDropFirst(s: string, p: string, i: nat)
    requires 0 < i && OccursAt(s, p, i)
    ensures OccursAt(s[1..], p, i - 1)
  {
    assert s[1..][i - 1..i - 1 + |p|] == s[i..i + |p|];
  }

  lemma OccursAddFirst(a: char, t: string, p: string, j: nat)
    requires OccursAt(t, p, j)
    ensures OccursAt([a] + t, p, j + 1)
  {
    assert ([a] + t)[j + 1..j + 1 + |p|] == t[j..j + |p|];
  }

  /** Replacing by a string of the same length keeps the length. */
  lemma {:induction false} ReplaceSameLength(s: string, p: string, r: string)
    requires |p| > 0 && |r| == |p|
    ensures |ReplaceAll(s, p, r)| == |s|
    decreases |s|
  {
    if |p| <= |s| {
      if s[..|p|] == p {
        ReplaceSameLength(s[|p|..], p, r);
      } else {
        ReplaceSameLength(s[1..], p, r);
      }
    }
  }

  // ---------------------------------------------------------------------
  // os.path.splitext (POSIX)
  // ---------------------------------------------------------------------

  /** `s.rfind(c)`: the last index of `c`, or -1. */
  function LastIndex(s: string, c: char): (r: int)
    ensures -1 <= r < |s|
    ensures r >= 0 ==> s[r] == c
    ensures forall k :: r < k < |s| ==> s[k] != c
  {
    if s == [] then -1
    else if s[|s| - 1] == c then |s| - 1
    else LastIndex(s[..|s| - 1], c)
  }

  /** `os.path.splitext(p)`: the extension starts at the last `.` after the
      last `/`, unless everything before that dot in the last component is
      dots (a dotfile, which has no extension). */
  function SplitExt(p: string): (r: (string, string))
    ensures r.0 + r.1 == p
    ensures r.1 == [] || r.1[0] == '.'
    ensures r.1 != [] <==>
              var sep := LastIndex(p, '/');
              var dot := LastIndex(p, '.');
              dot > sep && exists k :: sep + 1 <= k < dot && p[k] != '.'
  {
    var sep := LastIndex(p, '/');
    var dot := LastIndex(p, '.');
    if dot > sep && exists k :: sep + 1 <= k < dot && p[k] != '.' then
      assert p[..dot] + p[dot..] == p;
      (p[..dot], p[dot..])
    else (p, [])
  }

  // ---------------------------------------------------------------------
  // sanitize_filename
  // ---------------------------------------------------------------------

  /** The characters the first step replaces by `_`. */
  predicate Forbidden(c: char) {
    c == '[' || c == ']' || c == '(' || c == ')' || c == ' '
  }

  predicate NoForbidden(s: string) {
    forall i :: 0 <= i < |s| ==> !Forbidden(s[i])
  }

  /** No two adjacent underscores. */
  predicate NoDouble(s: string) {
    forall i :: 0 <= i < |s| - 1 ==> !(s[i] == '_' && s[i + 1] == '_')
  }

  /** What the five chained `replace` calls do (`SubstituteChained`): each
      problematic character becomes one `_`, everything else stays. */
  function Substitute(s: string): (r: string)
    ensures |r| == |s| && NoForbidden(r)
    ensures forall i :: 0 <= i < |s| ==> (r[i] == s[i] <==> !Forbidden(s[i]))
  {
    seq(|s|, i requires 0 <= i < |s| => if Forbidden(s[i]) then '_' else s[i])
  }

  /** One character replaced by another everywhere. */
  function MapChar(s: string, c: char, d: char): (r: string)
    ensures |r| == |s|
    ensures forall i :: 0 <= i < |s| ==> r[i] == if s[i] == c then d else s[i]
  {
    seq(|s|, i requires 0 <= i < |s| => if s[i] == c then d else s[i])
  }

  /** `s.replace(c, d)` for one-character strings is `MapChar`. */
  lemma {:induction false} ReplaceChar(s: string, c: char, d: char)
    ensures ReplaceAll(s, [c], [d]) == MapChar(s, c, d)
    decreases |s|
  {
    if |s| >= 1 {
      ReplaceChar(s[1..], c, d);
      assert s[..1] == [s[0]];
      assert s[1..] == s[|[c]|..];
      var m := MapChar(s, c, d);
      assert m == [m[0]] + MapChar(s[1..], c, d);
    }
  }

  /** The per-character map is the five chained `replace` calls of
      `sanitize_filename`. */
  lemma SubstituteChained(s: string)
    ensures ReplaceAll(ReplaceAll(ReplaceAll(ReplaceAll(ReplaceAll(s, "[", "_"), "]", "_"), "(", "_"), ")", "_"), " ", "_")
            == Substitute(s)
  {
    var s1 := ReplaceAll(s, "[", "_");
    ReplaceChar(s, '[', '_');
    var s2 := ReplaceAll(s1, "]", "_");
    ReplaceChar(s1, ']', '_');
    var s3 := ReplaceAll(s2, "(", "_");
    ReplaceChar(s2, '(', '_');
    var s4 := ReplaceAll(s3, ")", "_");
    ReplaceChar(s3, ')', '_');
    var s5 := ReplaceAll(s4, " ", "_");
    ReplaceChar(s4, ' ', '_');
    assert s5 == Substitute(s);
  }

  /** Reference definition of collapsing: an underscore that follows an
      underscore is dropped. */
  function Squeeze(s: string): string
    decreases |s|
  {
    if |s| < 2 then s
    else if s[0] == '_' && s[1] == '_' then Squeeze(s[1..])
    else [s[0]] + Squeeze(s[1..])
  }

  /** `'__' in s` is the negation of `NoDouble(s)`. */
  lemma DoubleIff(s: string)
    ensures Contains(s, "__") <==> !NoDouble(s)
  {
    if Contains(s, "__") {
      var i: nat :| i <= |s| && OccursAt(s, "__", i);
      assert s[i] == s[i..i + 2][0] && s[i + 1] == s[i..i + 2][1];
    }
    if !NoDouble(s) {
      var i :| 0 <= i < |s| - 1 && s[i] == '_' && s[i + 1] == '_';
      assert s[i..i + 2] == "__";
      assert OccursAt(s, "__", i);
    }
  }

  /** What collapsing does: it keeps the first character, only drops
      underscores, never lengthens, leaves no `__`, and is the identity on
      a string without `__`. */
  lemma {:induction false} SqueezeFacts(s: string)
    ensures |Squeeze(s)| <= |s|
    ensures |s| > 0 ==> |Squeeze(s)| > 0 && Squeeze(s)[0] == s[0]
    ensures forall c {:trigger multiset(s)[c]} :: c != '_' ==> multiset(Squeeze(s))[c] == multiset(s)[c]
    ensures NoDouble(Squeeze(s))
    ensures NoDouble(s) ==> Squeeze(s) == s
    decreases |s|
  {
    if |s| >= 2 {
      var t := s[1..];
      SqueezeFacts(t);
      assert s == [s[0]] + t;
      assert multiset(s) == multiset{s[0]} + multiset(t);
      if s[0] == '_' && s[1] == '_' {
        assert Squeeze(s) == Squeeze(t);
      } else {
        var q := Squeeze(t);
        assert Squeeze(s) == [s[0]] + q;
        assert multiset([s[0]] + q) == multiset{s[0]} + multiset(q);
        forall i | 0 <= i < |[s[0]] + q| - 1
          ensures !(([s[0]] + q)[i] == '_' && ([s[0]] + q)[i + 1] == '_')
        {
          if i > 0 {
            assert ([s[0]] + q)[i] == q[i - 1] && ([s[0]] + q)[i + 1] == q[i];
          }
        }
        if NoDouble(s) {
          assert NoDouble(t) by {
            forall i | 0 <= i < |t| - 1 ensures !(t[i] == '_' && t[i + 1] == '_') {
              assert t[i] == s[i + 1] && t[i + 1] == s[i + 2];
            }
          }
        }
      }
    }
  }

  /** One `replace('__', '_')` pass after a character `c` collapses to the
      same thing as the string before the pass. */
  lemma {:induction false} PassAfter(c: char, t: string)
    ensures Squeeze([c] + ReplaceAll(t, "__", "_")) == Squeeze([c] + t)
    decreases |t|
  {
    var u := ReplaceAll(t, "__", "_");
    if |t| < 2 {
      assert u == t;
    } else if t[..2] == "__" {
      var w := t[2..];
      assert t[0] == '_' && t[1] == '_' by { assert t[0] == t[..2][0] && t[1] == t[..2][1]; }
      var v := ReplaceAll(w, "__", "_");
      assert u == "_" + v;
      PassAfter('_', w);
      assert ([c] + u)[1..] == [u[0]] + v;
      assert ([c] + t)[1..] == t && t[1..] == ['_'] + w;
      if c == '_' {
        assert Squeeze([c] + u) == Squeeze(['_'] + v);
        assert Squeeze([c] + t) == Squeeze(t) == Squeeze(['_'] + w);
      } else {
        assert Squeeze([c] + u) == [c] + Squeeze(['_'] + v);
        assert Squeeze([c] + t) == [c] + Squeeze(t) == [c] + Squeeze(['_'] + w);
      }
    } else {
      var w := t[1..];
      var v := ReplaceAll(w, "__", "_");
      assert u == [t[0]] + v;
      PassAfter(t[0], w);
      assert ([c] + u)[1..] == u && u[0] == t[0];
      assert ([c] + t)[1..] == t && t == [t[0]] + w;
    }
  }

  /** A pass never lengthens the string, and shortens it while `__` occurs. */
  lemma {:induction false} PassShortens(s: string)
    ensures |ReplaceAll(s, "__", "_")| <= |s|
    ensures Contains(s, "__") ==> |ReplaceAll(s, "__", "_")| < |s|
    decreases |s|
  {
    if |s| >= 2 {
      if s[..2] == "__" {
        PassShortens(s[2..]);
      } else {
        PassShortens(s[1..]);
        if Contains(s, "__") {
          var i: nat :| i <= |s| && OccursAt(s, "__", i);
          assert i != 0 by { assert s[0..0 + 2] == s[..2]; }
          OccursDropFirst(s, "__", i);
        }
      }
    }
  }

  /** A pass does not change what the string collapses to. */
  lemma PassSqueeze(s: string)
    ensures Squeeze(ReplaceAll(s, "__", "_")) == Squeeze(s)
  {
    if |s| >= 2 {
      if s[..2] == "__" {
        assert s[0] == '_' && s[1] == '_' by { assert s[0] == s[..2][0] && s[1] == s[..2][1]; }
        PassAfter('_', s[2..]);
        assert s[1..] == ['_'] + s[2..];
      } else {
        PassAfter(s[0], s[1..]);
        assert s == [s[0]] + s[1..];
      }
    }
  }

  /** The `while '__' in new_filename` loop. */
  method CollapseUnderscores(s: string) returns (r: string)
    ensures r == Squeeze(s)
  {
    r := s;
    while Contains(r, "__")
      invariant Squeeze(r) == Squeeze(s)
      decreases |r|
    {
      PassShortens(r);
      PassSqueeze(r);
      r := ReplaceAll(r, "__", "_");
    }
    DoubleIff(r);
    SqueezeFacts(r);
  }

  /** `name[:-1]` when `name.endswith('_')`. */
  function DropUnderscore(name: string): string {
    if |name| > 0 && name[|name| - 1] == '_' then name[..|name| - 1] else name
  }

  /** `sanitize_filename`, stated on the reference collapse. */
  function Sanitized(filename: string): string {
    var (name, ext) := SplitExt(Squeeze(Substitute(filename)));
    DropUnderscore(name) + ext
  }

  method SanitizeFilename(filename: string) returns (r: string)
    ensures r == Sanitized(filename)
  {
    var replaced := ReplaceAll(filename, "[", "_");
    replaced := ReplaceAll(replaced, "]", "_");
    replaced := ReplaceAll(replaced, "(", "_");
    replaced := ReplaceAll(replaced, ")", "_");
    replaced := ReplaceAll(replaced, " ", "_");
    SubstituteChained(filename);
    var collapsed := CollapseUnderscores(replaced);
    var (name, ext) := SplitExt(collapsed);
    if |name| > 0 && name[|name| - 1] == '_' {
      name := name[..|name| - 1];
    }
    return name + ext;
  }

  /** Collapsing brings in no new character. */
  lemma SqueezeNoForbidden(s: string)
    requires NoForbidden(s)
    ensures NoForbidden(Squeeze(s))
  {
    var t := Squeeze(s);
    SqueezeFacts(s);
    forall i | 0 <= i < |t| ensures !Forbidden(t[i]) {
      assert t[i] in multiset(t);
    }
  }

  /** Dropping the `_` that ends the stem of a clean string keeps it clean:
      the character before it is not `_`, and the extension starts with
      a dot. */
  lemma DropKeepsClean(name: string, ext: string)
    requires NoForbidden(name + ext) && NoDouble(name + ext)
    requires ext == [] || ext[0] == '.'
    ensures NoForbidden(DropUnderscore(name) + ext)
    ensures NoDouble(DropUnderscore(name) + ext)
    ensures |DropUnderscore(name) + ext| <= |name + ext|
  {
    var t := name + ext;
    var r := DropUnderscore(name) + ext;
    if |name| > 0 && name[|name| - 1] == '_' {
      var j := |name| - 1;
      assert r == t[..j] + t[j + 1..];
      assert forall i :: 0 <= i < j ==> r[i] == t[i];
      assert forall i :: j <= i < |r| ==> r[i] == t[i + 1];
      assert j < |r| ==> r[j] == '.';
    }
  }

  /** The result has none of `[`, `]`, `(`, `)`, space, no `__`, and is no
      longer than the input. */
  lemma SanitizedClean(filename: string)
    ensures NoForbidden(Sanitized(filename))
    ensures NoDouble(Sanitized(filename))
    ensures |Sanitized(filename)| <= |filename|
  {
    var t := Squeeze(Substitute(filename));
    var (name, ext) := SplitExt(t);
    SqueezeFacts(Substitute(filename));
    SqueezeNoForbidden(Substitute(filename));
    DropKeepsClean(name, ext);
  }

  /** A name that is already clean is returned unchanged. */
  lemma SanitizedIdempotentOnClean(filename: string)
    requires NoForbidden(filename) && NoDouble(filename)
    requires DropUnderscore(SplitExt(filename).0) == SplitExt(filename).0
    ensures Sanitized(filename) == filename
  {
    assert Substitute(filename) == filename;
    SqueezeFacts(filename);
  }

  /** The stem the function keeps never ends with `_`: only one underscore
      is removed, and no `__` is left to expose another. */
  lemma SanitizedStem(filename: string)
    ensures var (name, ext) := SplitExt(Squeeze(Substitute(filename)));
            var stem := DropUnderscore(name);
            Sanitized(filename) == stem + ext && (stem == [] || stem[|stem| - 1] != '_')
  {
    var t := Squeeze(Substitute(filename));
    var (name, ext) := SplitExt(t);
    SqueezeFacts(Substitute(filename));
    if |name| >= 2 && name[|name| - 1] == '_' {
      assert t[|name| - 2] == name[|name| - 2] && t[|name| - 1] == name[|name| - 1];
    }
  }

  /** Splitting the result again can still give a stem ending in `_`:
      `_._` keeps the stem `_` with extension `._`, drops the `_`, and
      `._` is a dotfile to `splitext`, so its stem is all of `._`. */
  lemma ResplitCounterexample()
    ensures Sanitized("_._") == "._"
    ensures SplitExt("._").0 == "._"
  {
    assert Substitute("_._") == "_._";
    assert Squeeze("_._") == "_._" by {
      assert "_._"[1..] == "._";
      assert "._"[1..] == "_";
    }
    assert LastIndex("_._", '/') == -1 by {
      assert "_._"[..2] == "_." && "_."[..1] == "_" && "_"[..0] == "";
    }
    assert LastIndex("_._", '.') == 1 by {
      assert "_._"[..2] == "_.";
    }
    assert "_._"[0] != '.';
    assert SplitExt("_._") == ("_", "._") by {
      assert "_._"[..1] == "_" && "_._"[1..] == "._";
    }
    assert LastIndex("._", '/') == -1 by {
      assert "._"[..1] == "." && "."[..0] == "";
    }
    assert LastIndex("._", '.') == 0 by {
      assert "._"[..1] == ".";
    }
  }

  // ---------------------------------------------------------------------
  // process_directory: rename planning
  // ---------------------------------------------------------------------

  /** The `renames` dict in insertion order, and the directory's names. */
  datatype Planned = Planned(renames: seq<(string, string)>, names: set<string>)

  /** One listed file: only `.b3dm` files whose name changes are renamed,
      and not when the new name is already taken. */
  function PlanStep(st: Planned, filename: string): Planned {
    if !EndsWith(filename, ".b3dm") then st
    else
      var newName := Sanitized(filename);
      if newName == filename || newName in st.names then st
      else Planned(st.renames + [(filename, newName)], st.names - {filename} + {newName})
  }

  function Plan(listing: seq<string>, names: set<string>): Planned {
    if listing == [] then Planned([], names)
    else PlanStep(Plan(listing[..|listing| - 1], names), listing[|listing| - 1])
  }

  function NamesOf(listing: seq<string>): set<string> {
    set i | 0 <= i < |listing| :: listing[i]
  }

  /** The loop at lines 31-48 over a directory listing. */
  method PlanRenames(listing: seq<string>) returns (renames: seq<(string, string)>, names: set<string>)
    ensures Planned(renames, names) == Plan(listing, NamesOf(listing))
  {
    renames := [];
    names := NamesOf(listing);
    for i := 0 to |listing|
      invariant Planned(renames, names) == Plan(listing[..i], NamesOf(listing))
    {
      var filename := listing[i];
      assert listing[..i + 1][..i] == listing[..i];
      if !EndsWith(filename, ".b3dm") {
        continue;
      }
      var newName := SanitizeFilename(filename);
      if newName != filename {
        if newName in names {
          continue;
        }
        names := names - {filename} + {newName};
        renames := renames + [(filename, newName)];
      }
    }
    assert listing[..|listing|] == listing;
  }

  predicate Distinct(s: seq<string>) {
    forall i, j :: 0 <= i < j < |s| ==> s[i] != s[j]
  }

  /** Renaming never changes how many names the directory holds, and the
      files not yet visited are still there. */
  lemma {:induction false} PlanKeepsCount(done: seq<string>, rest: seq<string>, names: set<string>)
    requires Distinct(done + rest)
    requires forall i :: 0 <= i < |done + rest| ==> (done + rest)[i] in names
    ensures |Plan(done, names).names| == |names|
    ensures forall i :: 0 <= i < |rest| ==> rest[i] in Plan(done, names).names
    decreases |done|
  {
    if done == [] {
      assert done + rest == rest;
    } else {
      var init := done[..|done| - 1];
      var x := done[|done| - 1];
      assert init + ([x] + rest) == done + rest;
      PlanKeepsCount(init, [x] + rest, names);
      var st := Plan(init, names);
      assert x == ([x] + rest)[0];
      forall i | 0 <= i < |rest| ensures rest[i] != x {
        assert (done + rest)[|done| - 1] == x && (done + rest)[|done| + i] == rest[i];
      }
      forall i | 0 <= i < |rest| ensures rest[i] in st.names {
        assert rest[i] == ([x] + rest)[i + 1];
      }
      assert Plan(done, names) == PlanStep(st, x);
      forall i | 0 <= i < |rest| ensures rest[i] in Plan(done, names).names {
        assert rest[i] in st.names && rest[i] != x;
      }
      var newName := Sanitized(x);
      if EndsWith(x, ".b3dm") && newName != x && newName !in st.names {
        assert |st.names - {x}| == |st.names| - 1;
      }
    }
  }

  /** The directory keeps its cardinality over the whole listing. */
  lemma PlanCardinality(listing: seq<string>)
    requires Distinct(listing)
    ensures |Plan(listing, NamesOf(listing)).names| == |NamesOf(listing)|
  {
    assert listing + [] == listing;
    PlanKeepsCount(listing, [], NamesOf(listing));
  }

  /** One listed file adds at most one rename: a `.b3dm` name to its
      sanitised, different, previously free name, which the directory then
      holds. */
  lemma StepRecords(st: Planned, x: string)
    ensures var next := PlanStep(st, x);
            || next == st
            || (&& next.renames == st.renames + [(x, Sanitized(x))]
                && EndsWith(x, ".b3dm") && Sanitized(x) != x
                && Sanitized(x) !in st.names && Sanitized(x) in next.names)
  {
  }

  /** Every recorded rename maps a listed `.b3dm` name to its sanitised,
      different name, and there is at most one rename per listed file. */
  lemma {:induction false} PlanSound(listing: seq<string>, names: set<string>)
    ensures var r := Plan(listing, names).renames;
            forall k :: 0 <= k < |r| ==>
              && r[k].0 in listing
              && EndsWith(r[k].0, ".b3dm")
              && r[k].1 == Sanitized(r[k].0)
              && r[k].1 != r[k].0
    ensures |Plan(listing, names).renames| <= |listing|
    decreases |listing|
  {
    if listing != [] {
      var init := listing[..|listing| - 1];
      var x := listing[|listing| - 1];
      PlanSound(init, names);
      var st := Plan(init, names);
      StepRecords(st, x);
      assert Plan(listing, names) == PlanStep(st, x);
      forall k | 0 <= k < |st.renames| ensures st.renames[k].0 in listing {
        var i :| 0 <= i < |init| && init[i] == st.renames[k].0;
        assert listing[i] == init[i];
      }
    }
  }

  // ---------------------------------------------------------------------
  // process_directory: reference rewriting
  // ---------------------------------------------------------------------

  /** The text of `tileset.json` and the number of renames found in it. */
  datatype Rewrite = Rewrite(content: string, count: nat)

  /** One rename: `dir/old` is replaced everywhere by `dir/new`; if it does
      not occur, the URL-quoted `dir/quote(old)` is tried instead. */
  function RewriteStep(st: Rewrite, dir: string, rename: (string, string), quote: string -> string): Rewrite {
    var search := dir + "/" + rename.0;
    var replacement := dir + "/" + rename.1;
    if Contains(st.content, search) then
      Rewrite(ReplaceAll(st.content, search, replacement), st.count + 1)
    else
      var encoded := dir + "/" + quote(rename.0);
      if Contains(st.content, encoded) then
        Rewrite(ReplaceAll(st.content, encoded, replacement), st.count + 1)
      else st
  }

  function Rewritten(content: string, dir: string, renames: seq<(string, string)>, quote: string -> string): (r: Rewrite)
    ensures r.count <= |renames|
  {
    if renames == [] then Rewrite(content, 0)
    else RewriteStep(Rewritten(content, dir, renames[..|renames| - 1], quote), dir, renames[|renames| - 1], quote)
  }

  /** The loop at lines 61-79. */
  method RewriteReferences(content: string, dir: string, renames: seq<(string, string)>, quote: string -> string)
    returns (updated: string, count: nat)
    ensures Rewrite(updated, count) == Rewritten(content, dir, renames, quote)
    ensures count <= |renames|
  {
    updated := content;
    count := 0;
    for i := 0 to |renames|
      invariant Rewrite(updated, count) == Rewritten(content, dir, renames[..i], quote)
    {
      assert renames[..i + 1][..i] == renames[..i];
      var (oldName, newName) := renames[i];
      var search := dir + "/" + oldName;
      var replacement := dir + "/" + newName;
      if Contains(updated, search) {
        updated := ReplaceAll(updated, search, replacement);
        count := count + 1;
      } else {
        var encoded := dir + "/" + quote(oldName);
        if Contains(updated, encoded) {
          updated := ReplaceAll(updated, encoded, replacement);
          count := count + 1;
        }
      }
    }
    assert renames[..|renames|] == renames;
  }

  /** A text that mentions none of the renamed files, plainly or quoted,
      comes back unchanged with a count of 0. */
  lemma {:induction false} RewriteNothingFound(content: string, dir: string, renames: seq<(string, string)>, quote: string -> string)
    requires forall k :: 0 <= k < |renames| ==>
               !Contains(content, dir + "/" + renames[k].0) && !Contains(content, dir + "/" + quote(renames[k].0))
    ensures Rewritten(content, dir, renames, quote) == Rewrite(content, 0)
    decreases |renames|
  {
    if renames != [] {
      var init := renames[..|renames| - 1];
      assert forall k :: 0 <= k < |init| ==> init[k] == renames[k];
      RewriteNothingFound(content, dir, init, quote);
    }
  }
}

/** Paths inside a bundle, and the bundle errors. */
module BundlePaths {
  import opened Bytes
  import opened Errors
  import opened Files

  datatype BundleError =
    | Io
    | Crypto(error: CryptoError)
    | Serialization
    | PathTraversal
    | SpecialFileRejected
    | OutputExists
    | ManifestError

  const SLASH: byte := 47
  const BACKSLASH: byte := 92
  const COLON: byte := 58
  const CURRENT: bytes := [46]
  const PARENT: bytes := [46, 46]

  /** The pieces between slashes. */
  function Split(s: bytes): (r: seq<bytes>)
    ensures |r| > 0
  {
    if s == [] then [[]]
    else
      var more := Split(s[1..]);
      if s[0] == SLASH then [[]] + more else [[s[0]] + more[0]] + more[1..]
  }

  function Join(names: seq<bytes>): bytes
    requires names != []
  {
    if |names| == 1 then names[0] else names[0] + [SLASH] + Join(names[1..])
  }

  datatype Component = CurDir | ParentDir | Normal(name: bytes)

  /** `Path::components` on a relative path: empty pieces and inner dots vanish. */
  function Classify(pieces: seq<bytes>): seq<Component> {
    if pieces == [] then []
    else
      var more := Classify(pieces[1..]);
      if pieces[0] == [] || pieces[0] == CURRENT then more
      else if pieces[0] == PARENT then [ParentDir] + more
      else [Normal(pieces[0])] + more
  }

  function Components(path: bytes): seq<Component> {
    (if Split(path)[0] == CURRENT then [CurDir] else []) + Classify(Split(path))
  }

  predicate AllNormal(components: seq<Component>) {
    forall k :: 0 <= k < |components| ==> components[k].Normal?
  }

  function Names(components: seq<Component>): (r: seq<bytes>)
    requires AllNormal(components)
    ensures |r| == |components| && forall k :: 0 <= k < |r| ==> r[k] == components[k].name
  {
    seq(|components|, k requires 0 <= k < |components| => components[k].name)
  }

  function ValidateRelativePath(path: bytes): Result<Path, BundleError> {
    if path == [] || BACKSLASH in path then Err(PathTraversal)
    else if path[0] == SLASH then Err(PathTraversal)
    else if |path| >= 2 && path[1] == COLON then Err(PathTraversal)
    else if AllNormal(Components(path)) then Ok(Names(Components(path)))
    else Err(PathTraversal)
  }

  predicate ValidPath(path: bytes) { ValidateRelativePath(path).Ok? }

  /** What a validated path may consist of: names that lead into a subdirectory. */
  predicate PlainName(name: bytes) {
    name != [] && name != CURRENT && name != PARENT && SLASH !in name && BACKSLASH !in name
  }

  // ---- What is accepted ----

  lemma {:induction false} SplitPieces(s: bytes)
    ensures forall k :: 0 <= k < |Split(s)| ==> SLASH !in Split(s)[k] && forall b :: b in Split(s)[k] ==> b in s
    ensures s != [] && s[0] != SLASH ==> Split(s)[0] != []
  {
    if s != [] {
      SplitPieces(s[1..]);
    }
  }

  lemma {:induction false} ClassifyPieces(pieces: seq<bytes>)
    ensures AllNormal(Classify(pieces)) <==> PARENT !in pieces
    ensures forall k :: 0 <= k < |Classify(pieces)| && Classify(pieces)[k].Normal? ==>
      var name := Classify(pieces)[k].name; name in pieces && name != [] && name != CURRENT && name != PARENT
  {
    if pieces != [] {
      ClassifyPieces(pieces[1..]);
      var more := Classify(pieces[1..]);
      assert pieces == [pieces[0]] + pieces[1..];
      assert |CURRENT| == 1 && |PARENT| == 2;
      assert PARENT in pieces <==> PARENT == pieces[0] || PARENT in pieces[1..];
      if pieces[0] != [] && pieces[0] != CURRENT {
        var all := Classify(pieces);
        assert forall k :: 0 <= k < |more| ==> all[k + 1] == more[k];
        assert forall k :: 1 <= k < |all| ==> all[k] == more[k - 1];
        assert all[0].Normal? <==> pieces[0] != PARENT;
        assert AllNormal(all) <==> all[0].Normal? && AllNormal(more);
      } else {
        assert PARENT != pieces[0];
      }
    }
  }

  /** Accepted are exactly the relative, slash-separated paths without a drive, a
      leading dot or any parent reference; and all that is left of one is at least
      one plain name, so it never leaves the directory it is joined to. */
  lemma AcceptedPaths(path: bytes)
    ensures ValidPath(path) <==>
      && path != [] && BACKSLASH !in path && path[0] != SLASH && !(|path| >= 2 && path[1] == COLON)
      && Split(path)[0] != CURRENT && PARENT !in Split(path)
    ensures ValidPath(path) ==>
      var names := ValidateRelativePath(path).value;
      names != [] && forall k :: 0 <= k < |names| ==> PlainName(names[k])
  {
    var pieces := Split(path);
    SplitPieces(path);
    ClassifyPieces(pieces);
    if pieces[0] == CURRENT {
      assert Components(path)[0] == CurDir;
    } else {
      assert Components(path) == Classify(pieces);
    }
  }

  // ---- Canonical paths ----

  lemma {:induction false} SplitName(name: bytes)
    requires SLASH !in name
    ensures Split(name) == [name]
  {
    if name != [] {
      SplitName(name[1..]);
      assert name == [name[0]] + name[1..];
    }
  }

  lemma {:induction false} SplitAtSlash(name: bytes, rest: bytes)
    requires SLASH !in name
    ensures Split(name + [SLASH] + rest) == [name] + Split(rest)
  {
    var s := name + [SLASH] + rest;
    if name == [] {
      assert s[1..] == rest;
    } else {
      SplitAtSlash(name[1..], rest);
      assert s[1..] == name[1..] + [SLASH] + rest;
      assert s[0] == name[0] && name == [name[0]] + name[1..];
      assert Split(s) == [[s[0]] + name[1..]] + Split(rest);
    }
  }

  lemma {:induction false} SplitOfJoin(names: seq<bytes>)
    requires names != [] && forall k :: 0 <= k < |names| ==> PlainName(names[k])
    ensures Split(Join(names)) == names
    ensures Classify(names) == seq(|names|, k requires 0 <= k < |names| => Normal(names[k]))
    ensures Join(names) != [] && Join(names)[0] != SLASH && BACKSLASH !in Join(names)
  {
    hide Split;
    if |names| == 1 {
      SplitName(names[0]);
      assert Classify(names) == [Normal(names[0])] + Classify([]);
    } else {
      SplitOfJoin(names[1..]);
      SplitAtSlash(names[0], Join(names[1..]));
    }
  }

  /** A canonical path is the list of its names: joining and validating undo each
      other. */
  lemma CanonicalRoundTrip(names: seq<bytes>)
    requires names != [] && forall k :: 0 <= k < |names| ==> PlainName(names[k])
    ensures ValidPath(Join(names)) <==> !(|Join(names)| >= 2 && Join(names)[1] == COLON)
    ensures ValidPath(Join(names)) ==> ValidateRelativePath(Join(names)) == Ok(names)
  {
    SplitOfJoin(names);
    var path := Join(names);
    assert Components(path) == Classify(names);
    if ValidPath(path) {
      assert Names(Components(path)) == names;
    }
  }

  /** No empty piece, as doubled or trailing slashes give, and no dot. */
  predicate Canonical(path: bytes) {
    ValidPath(path) && [] !in Split(path) && CURRENT !in Split(path)
  }

  /** The string ends in a name. A file cannot be put where the string ends in a slash
      or a dot, although components leave both out. */
  predicate EndsInName(path: bytes) {
    var pieces := Split(path);
    pieces[|pieces| - 1] != [] && pieces[|pieces| - 1] != CURRENT
  }

  lemma {:induction false} LastPiece(s: bytes)
    ensures var last := Split(s)[|Split(s)| - 1];
      && |last| <= |s| && s[|s| - |last|..] == last && SLASH !in last
      && (|Split(s)| == 1 ==> last == s) && (|Split(s)| > 1 ==> |last| < |s| && s[|s| - |last| - 1] == SLASH)
  {
    if s != [] {
      LastPiece(s[1..]);
      var more := Split(s[1..]);
      var last := more[|more| - 1];
      assert s == [s[0]] + s[1..];
      assert Split(s) == if s[0] == SLASH then [[]] + more else [[s[0]] + more[0]] + more[1..];
      hide Split;
      if s[0] == SLASH || |more| > 1 {
        assert Split(s)[|Split(s)| - 1] == last;
        assert s[|s| - |last|..] == s[1..][|s| - 1 - |last|..];
      }
    }
  }

  /** That is: it is neither empty nor "." and does not end in "/" or "/.". */
  lemma EndsInNameIff(path: bytes)
    ensures EndsInName(path) <==>
      !(path == [] || path == CURRENT || path[|path| - 1] == SLASH
        || (|path| >= 2 && path[|path| - 2] == SLASH && path[|path| - 1] == CURRENT[0]))
  {
    hide Split;
    LastPiece(path);
    var last := Split(path)[|Split(path)| - 1];
    var start := |path| - |last|;
    assert path[start..] == last;
    assert forall k :: 0 <= k < |last| ==> last[k] == path[start + k];
    assert |last| == 1 && last[0] == CURRENT[0] ==> last == CURRENT;
    assert |last| >= 1 ==> last[|last| - 1] == path[|path| - 1];
    assert |last| >= 2 ==> last[|last| - 2] == path[|path| - 2];
  }

  lemma CanonicalEndsInName(path: bytes)
    requires Canonical(path)
    ensures EndsInName(path)
  {
    hide ValidateRelativePath, Split;
    assert Split(path)[|Split(path)| - 1] in Split(path);
  }

  lemma {:induction false} JoinOfSplit(s: bytes)
    ensures Join(Split(s)) == s
  {
    if s != [] {
      JoinOfSplit(s[1..]);
      var more := Split(s[1..]);
      if s[0] != SLASH && |more| > 1 {
        assert ([[s[0]] + more[0]] + more[1..])[1..] == more[1..];
      }
    }
  }

  lemma {:induction false} ClassifyPlain(pieces: seq<bytes>)
    requires [] !in pieces && CURRENT !in pieces && PARENT !in pieces
    ensures Classify(pieces) == seq(|pieces|, k requires 0 <= k < |pieces| => Normal(pieces[k]))
  {
    if pieces != [] {
      ClassifyPlain(pieces[1..]);
      assert pieces[0] in pieces;
    }
  }

  /** A canonical path is what its names are joined to, and no other path is. */
  lemma CanonicalIff(path: bytes)
    requires ValidPath(path)
    ensures Canonical(path) <==> path == Join(ValidateRelativePath(path).value)
  {
    hide Split, Join, Classify, Components;
    AcceptedPaths(path);
    var names := ValidateRelativePath(path).value;
    if Canonical(path) {
      CanonicalNames(path);
      JoinOfSplit(path);
    }
    if path == Join(names) { SplitOfJoin(names); }
  }

  lemma CanonicalNames(path: bytes)
    requires Canonical(path) && PARENT !in Split(path)
    ensures ValidateRelativePath(path) == Ok(Split(path))
  {
    hide Split, Classify;
    ClassifyPlain(Split(path));
    assert Components(path) == Classify(Split(path));
    assert Names(Components(path)) == Split(path);
  }

  /** Among canonical paths, different strings name different targets. */
  lemma CanonicalDistinct(p: bytes, q: bytes)
    requires Canonical(p) && Canonical(q)
    ensures ValidateRelativePath(p) == ValidateRelativePath(q) <==> p == q
  {
    hide Split, Join, Components;
    CanonicalIff(p);
    CanonicalIff(q);
  }

  const DOUBLED: bytes := [97, SLASH, SLASH, 98]
  const SINGLE: bytes := [97, SLASH, 98]

  lemma SplitDoubled()
    ensures Split(DOUBLED) == [[97], [], [98]] && EndsInName(DOUBLED)
    ensures Components(DOUBLED) == [Normal([97]), Normal([98])]
  {
    hide Split;
    SplitAtSlash([97], [SLASH, 98]);
    SplitAtSlash([], [98]);
    SplitName([98]);
    assert DOUBLED == [97] + [SLASH] + [SLASH, 98] && [SLASH, 98] == [] + [SLASH] + [98];
    var pieces := [[97], [], [98]];
    assert Split(DOUBLED) == pieces;
    assert pieces[1..] == [[], [98]] && pieces[1..][1..] == [[98]] && [[98]][1..] == [];
    assert Classify([[98]]) == [Normal([98])] + Classify([]);
  }

  lemma SingleNames()
    ensures ValidateRelativePath(SINGLE) == Ok([[97], [98]]) && Canonical(SINGLE)
  {
    hide Split;
    var names := [[97], [98]];
    assert Join(names) == [97] + [SLASH] + Join([[98]]) == SINGLE;
    CanonicalRoundTrip(names);
    SplitOfJoin(names);
  }

  /** Other paths are not told apart by their strings: these two differ and name the
      same target. */
  lemma DistinctStringsSameTarget()
    ensures ValidateRelativePath(DOUBLED) == ValidateRelativePath(SINGLE) == Ok([[97], [98]])
    ensures Canonical(SINGLE) && !Canonical(DOUBLED) && EndsInName(SINGLE) && EndsInName(DOUBLED)
  {
    hide Split, Components, Canonical, EndsInName;
    SplitDoubled();
    SingleNames();
    assert Names(Components(DOUBLED)) == [[97], [98]];
    NotCanonical(DOUBLED, 1);
    CanonicalEndsInName(SINGLE);
  }

  lemma NotCanonical(path: bytes, k: nat)
    requires k < |Split(path)| && Split(path)[k] == []
    ensures !Canonical(path)
  {
  }
}

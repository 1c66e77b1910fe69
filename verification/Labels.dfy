/** Dotted labels: places in the hierarchy, compared as strings. */
module Labels {
  import opened Results
  import opened Text

  // ---- the string functions ------------------------------------------------------------

  /** What stands before the last dot. */
  function ParentNodeLabel(name: string): Option<string> {
    if name == [] then None
    else if name[|name| - 1] == '.' then Some(name[..|name| - 1])
    else ParentNodeLabel(name[..|name| - 1])
  }

  /** Not empty, and no empty segment. */
  predicate IsWellFormed(name: string) {
    name != [] && forall k :: 0 <= k < |Split(name, '.')| ==> Split(name, '.')[k] != []
  }

  function SegmentCount(name: string): nat {
    if name == [] then 0 else |Split(name, '.')|
  }

  predicate IsAncestorOrSelf(authorizer: string, subject: string) {
    && IsWellFormed(authorizer) && IsWellFormed(subject)
    && (authorizer == subject
        || (authorizer <= subject && |subject| > |authorizer| && subject[|authorizer|] == '.'))
  }

  predicate IsAncestor(ancestor: string, descendant: string) {
    ancestor != descendant && IsAncestorOrSelf(ancestor, descendant)
  }

  predicate DirectParent(parent: string, child: string) {
    ParentNodeLabel(child) == Some(parent)
  }

  function AncestryDistance(ancestor: string, descendant: string): Option<int> {
    if IsWellFormed(ancestor) && IsWellFormed(descendant) && IsAncestorOrSelf(ancestor, descendant)
    then Some(SegmentCount(descendant) - SegmentCount(ancestor))
    else None
  }

  function CommonPrefix(a: seq<string>, b: seq<string>): seq<string> {
    if a == [] || b == [] || a[0] != b[0] || a[0] == [] then []
    else [a[0]] + CommonPrefix(a[1..], b[1..])
  }

  function Join(parts: seq<string>): string {
    if parts == [] then [] else if |parts| == 1 then parts[0] else parts[0] + ['.'] + Join(parts[1..])
  }

  function LowestCommonAncestor(left: string, right: string): Option<string> {
    if left == [] || right == [] then None
    else
      var common := CommonPrefix(Split(left, '.'), Split(right, '.'));
      if common == [] then None else Some(Join(common))
  }

  datatype RevisionAuthority =
    | ScopeOwner
    | Descendant(ancestor: string, depth: int)
    | Ancestor(depth: int)
    | CrossBranch(commonAncestor: Option<string>)
    | Unrelated

  function Relationship(scopeRoot: string, actor: string): RevisionAuthority {
    if !IsWellFormed(scopeRoot) || !IsWellFormed(actor) then Unrelated
    else if scopeRoot == actor then ScopeOwner
    else if AncestryDistance(scopeRoot, actor).Some? then Descendant(scopeRoot, AncestryDistance(scopeRoot, actor).value)
    else if AncestryDistance(actor, scopeRoot).Some? then Ancestor(AncestryDistance(actor, scopeRoot).value)
    else CrossBranch(LowestCommonAncestor(scopeRoot, actor))
  }

  /** The transfer module's own test. */
  predicate IsStrictDescendant(name: string, ancestor: string) {
    ancestor <= name && |name| > |ancestor| && name[|ancestor|] == '.' && |name| > |ancestor| + 1
  }

  // ---- labels as segment lists ------------------------------------------------------------

  function Segments(name: string): (parts: seq<string>)
    ensures |parts| >= 1
  {
    Split(name, '.')
  }

  lemma {:induction false} SegmentsOfJoined(a: string, b: string)
    ensures Segments(a + ['.'] + b) == Segments(a) + Segments(b)
  {
    var s := a + ['.'] + b;
    if a == [] {
      assert s[0] == '.' && s[1..] == b;
      assert Segments(s) == [[]] + Segments(b);
    } else {
      var rest := Segments(a[1..]);
      SegmentsOfJoined(a[1..], b);
      assert s[0] == a[0] && s[1..] == a[1..] + ['.'] + b;
      assert Segments(s[1..]) == rest + Segments(b);
      if a[0] == '.' {
        assert Segments(a) == [[]] + rest;
      } else {
        assert Segments(a) == [[a[0]] + rest[0]] + rest[1..];
        assert (rest + Segments(b))[1..] == rest[1..] + Segments(b);
      }
    }
  }

  lemma {:induction false} NoDotInside(s: string)
    ensures forall k :: 0 <= k < |Segments(s)| ==> '.' !in Segments(s)[k]
  {
    if s != [] {
      NoDotInside(s[1..]);
      var rest, parts := Segments(s[1..]), Segments(s);
      forall k | 0 <= k < |parts|
        ensures '.' !in parts[k]
      {
        if s[0] == '.' {
          assert k > 0 ==> parts[k] == rest[k - 1];
        } else if k > 0 {
          assert parts[k] == rest[k];
        } else {
          assert parts[0] == [s[0]] + rest[0];
        }
      }
    }
  }

  lemma {:induction false} JoinOfSegments(s: string)
    ensures Join(Segments(s)) == s
  {
    if s != [] {
      var rest := Segments(s[1..]);
      JoinOfSegments(s[1..]);
      if s[0] == '.' {
        assert Segments(s) == [[]] + rest;
        assert Segments(s)[1..] == rest;
        assert s == ['.'] + s[1..];
      } else {
        var parts := Segments(s);
        assert parts == [[s[0]] + rest[0]] + rest[1..];
        assert parts[1..] == rest[1..];
        assert s == [s[0]] + s[1..];
      }
    }
  }

  lemma {:induction false} SegmentsOfJoin(parts: seq<string>)
    requires parts != [] && forall k :: 0 <= k < |parts| ==> '.' !in parts[k]
    ensures Segments(Join(parts)) == parts
  {
    SplitAbsent(parts[0], '.');
    if |parts| > 1 {
      SegmentsOfJoin(parts[1..]);
      SegmentsOfJoined(parts[0], Join(parts[1..]));
      assert parts == [parts[0]] + parts[1..];
    }
  }

  lemma SameSegments(a: string, b: string)
    requires Segments(a) == Segments(b)
    ensures a == b
  {
    JoinOfSegments(a);
    JoinOfSegments(b);
  }

  lemma {:induction false} JoinConcat(a: seq<string>, b: seq<string>)
    requires a != [] && b != []
    ensures Join(a + b) == Join(a) + ['.'] + Join(b)
  {
    if |a| == 1 {
      assert (a + b)[1..] == b;
    } else {
      JoinConcat(a[1..], b);
      assert (a + b)[1..] == a[1..] + b;
    }
  }

  /** The string test is the prefix test on segments. */
  lemma AncestorIsPrefix(a: string, s: string)
    requires IsWellFormed(a) && IsWellFormed(s)
    ensures IsAncestorOrSelf(a, s) <==> Segments(a) <= Segments(s)
  {
    if IsAncestorOrSelf(a, s) && a != s {
      assert s == a + ['.'] + s[|a| + 1..];
      SegmentsOfJoined(a, s[|a| + 1..]);
    }
    if Segments(a) <= Segments(s) {
      JoinOfSegments(a);
      JoinOfSegments(s);
      if |Segments(a)| == |Segments(s)| {
        SameSegments(a, s);
      } else {
        var rest := Segments(s)[|Segments(a)|..];
        JoinConcat(Segments(a), rest);
        assert Segments(s) == Segments(a) + rest;
        assert s == a + ['.'] + Join(rest);
      }
    }
  }

  // ---- the parent -----------------------------------------------------------------------------

  lemma {:induction false} ParentSplits(name: string)
    ensures ParentNodeLabel(name).None? <==> '.' !in name
    ensures ParentNodeLabel(name).Some? ==>
      var p := ParentNodeLabel(name).value;
      |p| < |name| && name == p + ['.'] + name[|p| + 1..] && '.' !in name[|p| + 1..]
  {
    if name != [] {
      var front, last := name[..|name| - 1], name[|name| - 1];
      assert name == front + [last];
      if last != '.' {
        ParentSplits(front);
        if ParentNodeLabel(front).Some? {
          var p := ParentNodeLabel(front).value;
          assert name[|p| + 1..] == front[|p| + 1..] + [last];
        }
      }
    }
  }

  /** The parent drops the last segment. */
  lemma ParentDropsLast(name: string)
    ensures ParentNodeLabel(name).Some? <==> |Segments(name)| >= 2
    ensures ParentNodeLabel(name).Some? ==> Segments(ParentNodeLabel(name).value) == Segments(name)[..|Segments(name)| - 1]
  {
    ParentSplits(name);
    if ParentNodeLabel(name).Some? {
      var p := ParentNodeLabel(name).value;
      SegmentsOfJoined(p, name[|p| + 1..]);
      SplitAbsent(name[|p| + 1..], '.');
    } else {
      SplitAbsent(name, '.');
    }
  }

  /** `n` parent steps up. */
  function ParentAfter(name: string, n: nat): Option<string> {
    if n == 0 then Some(name)
    else
      var below := ParentAfter(name, n - 1);
      if below.None? then None else ParentNodeLabel(below.value)
  }

  lemma {:induction false} ParentAfterSegments(name: string, n: nat)
    ensures ParentAfter(name, n).Some? <==> n < |Segments(name)|
    ensures n < |Segments(name)| ==> Segments(ParentAfter(name, n).value) == Segments(name)[..|Segments(name)| - n]
  {
    if n > 0 {
      ParentAfterSegments(name, n - 1);
      if n - 1 < |Segments(name)| {
        ParentDropsLast(ParentAfter(name, n - 1).value);
      }
    } else {
      assert Segments(name)[..|Segments(name)|] == Segments(name);
    }
  }

  /** Ancestor-or-self is reachability by parent steps, and the distance is how many. */
  lemma AncestryIsParentSteps(a: string, s: string, n: nat)
    requires IsWellFormed(a) && IsWellFormed(s)
    ensures AncestryDistance(a, s) == Some(n) <==> ParentAfter(s, n) == Some(a)
  {
    AncestorIsPrefix(a, s);
    ParentAfterSegments(s, n);
    if ParentAfter(s, n).Some? && Segments(ParentAfter(s, n).value) == Segments(a) {
      SameSegments(ParentAfter(s, n).value, a);
    }
  }

  lemma AncestryIsReachability(a: string, s: string)
    requires IsWellFormed(a) && IsWellFormed(s)
    ensures IsAncestorOrSelf(a, s) <==> exists n: nat :: ParentAfter(s, n) == Some(a)
  {
    if IsAncestorOrSelf(a, s) {
      AncestorIsPrefix(a, s);
      var n := |Segments(s)| - |Segments(a)|;
      AncestryIsParentSteps(a, s, n);
    }
    forall n: nat | ParentAfter(s, n) == Some(a)
      ensures IsAncestorOrSelf(a, s)
    {
      AncestryIsParentSteps(a, s, n);
    }
  }

  lemma ParentIsOneStep(p: string, s: string)
    requires IsWellFormed(p) && IsWellFormed(s)
    ensures DirectParent(p, s) <==> AncestryDistance(p, s) == Some(1)
  {
    AncestryIsParentSteps(p, s, 1);
    assert ParentAfter(s, 0) == Some(s);
  }

  lemma TrailingDot(a: string)
    ensures !IsWellFormed(a + ['.'])
  {
    assert a + ['.'] + [] == a + ['.'];
    SegmentsOfJoined(a, []);
    var parts := Segments(a + ['.']);
    assert parts[|parts| - 1] == [];
  }

  /** The transfer module's test agrees with this module's on every pair of well-formed labels. */
  lemma StrictDescendantAgrees(name: string, ancestor: string)
    requires IsWellFormed(name) && IsWellFormed(ancestor)
    ensures IsStrictDescendant(name, ancestor) <==> IsAncestor(ancestor, name)
  {
    TrailingDot(ancestor);
    assert IsAncestor(ancestor, name) && |name| == |ancestor| + 1 ==> name == ancestor + ['.'];
  }

  // ---- the lowest common ancestor --------------------------------------------------------------

  predicate NoEmpty(parts: seq<string>) {
    forall k :: 0 <= k < |parts| ==> parts[k] != []
  }

  lemma {:induction false} CommonPrefixIsPrefix(a: seq<string>, b: seq<string>)
    ensures CommonPrefix(a, b) <= a && CommonPrefix(a, b) <= b
    ensures NoEmpty(CommonPrefix(a, b))
  {
    if !(a == [] || b == [] || a[0] != b[0] || a[0] == []) {
      CommonPrefixIsPrefix(a[1..], b[1..]);
      var c := CommonPrefix(a[1..], b[1..]);
      assert a == [a[0]] + a[1..] && b == [a[0]] + b[1..];
      assert CommonPrefix(a, b) == [a[0]] + c;
    }
  }

  lemma {:induction false} CommonPrefixIsLongest(a: seq<string>, b: seq<string>, c: seq<string>)
    requires NoEmpty(a) && c <= a && c <= b
    ensures c <= CommonPrefix(a, b)
  {
    if c != [] {
      assert c[0] == a[0] == b[0];
      CommonPrefixIsLongest(a[1..], b[1..], c[1..]);
      assert c == [c[0]] + c[1..];
    }
  }

  lemma {:induction false} CommonPrefixCommutes(a: seq<string>, b: seq<string>)
    ensures CommonPrefix(a, b) == CommonPrefix(b, a)
  {
    if !(a == [] || b == [] || a[0] != b[0] || a[0] == []) {
      CommonPrefixCommutes(a[1..], b[1..]);
    }
  }

  /** The result covers both labels and every other common ancestor covers it; none means none exists. */
  lemma DeepestShared(left: string, right: string)
    requires IsWellFormed(left) && IsWellFormed(right)
    ensures
      var r := LowestCommonAncestor(left, right);
      && (r.Some? ==> IsAncestorOrSelf(r.value, left) && IsAncestorOrSelf(r.value, right))
      && forall c :: IsAncestorOrSelf(c, left) && IsAncestorOrSelf(c, right) ==> r.Some? && IsAncestorOrSelf(c, r.value)
  {
    var common := CommonPrefix(Segments(left), Segments(right));
    var r := LowestCommonAncestor(left, right);
    CommonPrefixIsPrefix(Segments(left), Segments(right));
    if common != [] {
      NoDotInside(left);
      SegmentsOfJoin(common);
      WellFormedJoin(common);
      AncestorIsPrefix(r.value, left);
      AncestorIsPrefix(r.value, right);
    }
    forall c | IsAncestorOrSelf(c, left) && IsAncestorOrSelf(c, right)
      ensures r.Some? && IsAncestorOrSelf(c, r.value)
    {
      AncestorIsPrefix(c, left);
      AncestorIsPrefix(c, right);
      CommonPrefixIsLongest(Segments(left), Segments(right), Segments(c));
      AncestorIsPrefix(c, r.value);
    }
  }

  lemma WellFormedJoin(parts: seq<string>)
    requires parts != [] && NoEmpty(parts) && Segments(Join(parts)) == parts
    ensures IsWellFormed(Join(parts))
  {
    assert Segments([])[0] == [];
  }

  // ---- classification ------------------------------------------------------------------------------

  lemma Antisymmetric(a: string, b: string)
    requires IsAncestorOrSelf(a, b) && IsAncestorOrSelf(b, a)
    ensures a == b
  {
    AncestorIsPrefix(a, b);
    AncestorIsPrefix(b, a);
    SameSegments(a, b);
  }

  /**
   Seen from the other end: descendants and ancestors swap with the same depth,
   which is the number of parent steps; every other answer is symmetric.
   */
  lemma RelationshipIsDual(x: string, y: string)
    ensures forall d :: Relationship(x, y) == Descendant(x, d) <==> Relationship(y, x) == Ancestor(d)
    ensures Relationship(x, y).Descendant? ==>
      Relationship(x, y).ancestor == x && Relationship(x, y).depth > 0
      && ParentAfter(y, Relationship(x, y).depth) == Some(x)
    ensures Relationship(x, y).ScopeOwner? <==> x == y && IsWellFormed(x)
    ensures Relationship(x, y).Unrelated? <==> !IsWellFormed(x) || !IsWellFormed(y)
    ensures Relationship(x, y).CrossBranch? <==> Relationship(y, x).CrossBranch?
    ensures Relationship(x, y).CrossBranch? ==> Relationship(x, y) == Relationship(y, x)
  {
    CommonPrefixCommutes(Segments(x), Segments(y));
    if IsWellFormed(x) && IsWellFormed(y) && x != y {
      AncestorIsPrefix(x, y);
      AncestorIsPrefix(y, x);
      if IsAncestorOrSelf(x, y) && IsAncestorOrSelf(y, x) {
        Antisymmetric(x, y);
        assert false;
      }
      if IsAncestorOrSelf(x, y) {
        var n := |Segments(y)| - |Segments(x)|;
        if n == 0 {
          SameSegments(x, y);
          assert false;
        }
        AncestryIsParentSteps(x, y, n);
      }
    }
  }
}

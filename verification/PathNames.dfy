/** A path as the sequence of its components. */
module PathNames {
  import opened Bytes
  import opened DirectoryFormat

  /** `p` without its leading slashes. */
  function Skip(p: seq<byte>): (q: seq<byte>)
    ensures |q| <= |p|
    ensures q != [] ==> q[0] != SLASH
  {
    if p != [] && p[0] == SLASH then Skip(p[1..]) else p
  }

  /** `p` up to its first slash. */
  function Head(p: seq<byte>): (name: Name)
    ensures |name| <= |p|
    ensures p != [] && p[0] != SLASH ==> name != []
  {
    if p == [] || p[0] == SLASH then [] else [p[0]] + Head(p[1..])
  }

  /** The non-empty '/'-separated parts of a path. */
  function Components(p: seq<byte>): (names: seq<Name>)
    decreases |p|
  {
    var q := Skip(p);
    if q == [] then [] else [Head(q)] + Components(q[|Head(q)|..])
  }

  lemma {:induction false} HeadHasNoSlash(p: seq<byte>)
    ensures SLASH !in Head(p)
  {
    if p != [] && p[0] != SLASH { HeadHasNoSlash(p[1..]); }
  }

  lemma {:induction false} ComponentsAreNames(p: seq<byte>)
    ensures forall i | 0 <= i < |Components(p)| :: Components(p)[i] != [] && SLASH !in Components(p)[i]
    decreases |p|
  {
    var q := Skip(p);
    if q != [] {
      HeadHasNoSlash(q);
      ComponentsAreNames(q[|Head(q)|..]);
    }
  }

  lemma SkipOne(p: seq<byte>)
    requires p != [] && p[0] == SLASH
    ensures Components(p) == Components(p[1..])
  {
    assert Skip(p) == Skip(p[1..]);
  }

  lemma TakeOne(p: seq<byte>, h: Name)
    requires p != [] && p[0] != SLASH && h == Head(p)
    ensures Components(p) == [h] + Components(p[|h|..])
  {
    assert Skip(p) == p;
  }

  lemma {:induction false} HeadBeforeSlash(a: seq<byte>, b: seq<byte>)
    ensures Head(a + [SLASH] + b) == Head(a)
  {
    if a != [] && a[0] != SLASH {
      assert (a + [SLASH] + b)[1..] == a[1..] + [SLASH] + b;
      HeadBeforeSlash(a[1..], b);
    }
  }

  /** The case in which a name comes first. */
  lemma NameBeforeSlash(a: seq<byte>, b: seq<byte>, h: Name)
    requires a != [] && a[0] != SLASH && h == Head(a)
    requires Components(a[|h|..] + [SLASH] + b) == Components(a[|h|..]) + Components(b)
    ensures Components(a + [SLASH] + b) == Components(a) + Components(b)
  {
    HeadBeforeSlash(a, b);
    TakeOne(a, h);
    TakeOne(a + [SLASH] + b, h);
    RestAfterName(a, b, h);
    FirstOfSum(h, Components(a[|h|..]), Components(b));
  }

  lemma RestAfterName(a: seq<byte>, b: seq<byte>, h: Name)
    requires |h| <= |a|
    ensures (a + [SLASH] + b)[|h|..] == a[|h|..] + [SLASH] + b
  {
  }

  lemma FirstOfSum(h: Name, a: seq<Name>, b: seq<Name>)
    ensures [h] + (a + b) == ([h] + a) + b
  {
  }

  /** A slash separates: what stands before it and what stands after it are taken apart independently. */
  lemma {:induction false} SlashSeparates(a: seq<byte>, b: seq<byte>)
    ensures Components(a + [SLASH] + b) == Components(a) + Components(b)
    decreases |a|
  {
    var p := a + [SLASH] + b;
    if a == [] {
      SkipOne(p);
      assert p[1..] == b;
    } else if a[0] == SLASH {
      SkipOne(p);
      SkipOne(a);
      assert p[1..] == a[1..] + [SLASH] + b;
      SlashSeparates(a[1..], b);
    } else {
      var h := Head(a);
      SlashSeparates(a[|h|..], b);
      NameBeforeSlash(a, b, h);
    }
  }

  /** Leading, trailing and repeated slashes do not matter. */
  lemma ExtraSlashesDoNotMatter(a: seq<byte>, b: seq<byte>)
    ensures Components([SLASH] + a) == Components(a)
    ensures Components(a + [SLASH]) == Components(a)
    ensures Components(a + [SLASH, SLASH] + b) == Components(a + [SLASH] + b)
  {
    SkipOne([SLASH] + a);
    assert ([SLASH] + a)[1..] == a;
    SlashSeparates(a, []);
    assert a + [SLASH] + [] == a + [SLASH];
    SlashSeparates(a + [SLASH], b);
    assert a + [SLASH, SLASH] + b == (a + [SLASH]) + [SLASH] + b;
    SlashSeparates(a, b);
  }

  /** The usual spelling of a list of names. */
  function Join(names: seq<Name>): seq<byte> {
    if names == [] then [] else [SLASH] + names[0] + Join(names[1..])
  }

  lemma ComponentsOfFirst(p: seq<byte>, name: Name, rest: seq<byte>)
    requires name != [] && SLASH !in name && (rest == [] || rest[0] == SLASH)
    requires p == [SLASH] + name + rest
    ensures Components(p) == [name] + Components(rest)
  {
    SkipOne(p);
    FirstOfRun(p[1..], |name|);
    assert p[1..][..|name|] == name && p[1..][|name|..] == rest;
  }

  /** `p` begins with a component of `k` bytes. */
  lemma FirstOfRun(p: seq<byte>, k: nat)
    requires 0 < k <= |p| && SLASH !in p[..k] && (k == |p| || p[k] == SLASH)
    ensures Components(p) == [p[..k]] + Components(p[k..])
  {
    HeadOfRun(p, k);
    TakeOne(p, p[..k]);
  }

  lemma {:induction false} HeadOfRun(p: seq<byte>, k: nat)
    requires k <= |p| && SLASH !in p[..k] && (k == |p| || p[k] == SLASH)
    ensures Head(p) == p[..k]
  {
    if k > 0 {
      assert p[0] in p[..k];
      assert p[1..][..k - 1] == p[..k][1..];
      HeadOfRun(p[1..], k - 1);
    }
  }

  /** Taking apart the usual spelling gives the names back. */
  lemma {:induction false} ComponentsOfJoin(names: seq<Name>)
    requires forall i | 0 <= i < |names| :: names[i] != [] && SLASH !in names[i]
    ensures Components(Join(names)) == names
  {
    if names != [] {
      ComponentsOfFirst(Join(names), names[0], Join(names[1..]));
      ComponentsOfJoin(names[1..]);
    }
  }

  // ----- the scanning loops

  /** Cuts the next component off the front of `rest`. */
  method NextComponent(rest: seq<byte>) returns (component: Name, rest': seq<byte>)
    ensures component == [] <==> Components(rest) == []
    ensures component != [] ==> Components(rest) == [component] + Components(rest') && |rest'| < |rest|
  {
    var begin := 0;
    while begin < |rest| && rest[begin] == SLASH
      invariant 0 <= begin <= |rest|
      invariant Components(rest) == Components(rest[begin..])
    {
      SkipOne(rest[begin..]);
      assert rest[begin..][1..] == rest[begin + 1..];
      begin := begin + 1;
    }
    var end := begin;
    while end < |rest| && rest[end] != SLASH
      invariant begin <= end <= |rest|
      invariant SLASH !in rest[begin..end]
    {
      end := end + 1;
    }
    component, rest' := rest[begin..end], rest[end..];
    if component != [] {
      assert rest[begin..][..end - begin] == component && rest[begin..][end - begin..] == rest';
      FirstOfRun(rest[begin..], end - begin);
    }
  }

  method HasComponent(rest: seq<byte>) returns (r: bool)
    ensures r <==> Components(rest) != []
  {
    var i := 0;
    while i < |rest|
      invariant 0 <= i <= |rest|
      invariant Components(rest) == Components(rest[i..])
    {
      if rest[i] != SLASH {
        return true;
      }
      SkipOne(rest[i..]);
      assert rest[i..][1..] == rest[i + 1..];
      i := i + 1;
    }
    return false;
  }
}

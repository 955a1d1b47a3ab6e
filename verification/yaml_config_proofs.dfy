/**
  Properties of the dotted-path lookup: splitting and joining are inverse,
  and `get` either finds exactly the value the path names or throws the
  exception the first bad step causes.
 */
module ConfigProofs {
  import opened JavaLang
  import opened Config
  import Text

  /** Joining the pieces of a string gives the string back. */
  lemma {:induction false} JoinSplitAll(s: string)
    ensures JoinDots(SplitAll(s)) == s
    decreases |s|
  {
    if s != [] {
      var rest := SplitAll(s[1..]);
      JoinSplitAll(s[1..]);
      if s[0] == '.' {
        JoinDotsEmptyFirst(rest);
      } else {
        JoinDotsGrowFirst(s[0], rest);
      }
      assert s == [s[0]] + s[1..];
    }
  }

  /** An empty first piece joins to a leading dot. */
  lemma JoinDotsEmptyFirst(rest: seq<string>)
    requires |rest| >= 1
    ensures JoinDots([""] + rest) == "." + JoinDots(rest)
  {
    assert ([""] + rest)[1..] == rest;
  }

  /** A character put in front of the first piece is put in front of the joined string. */
  lemma JoinDotsGrowFirst(c: char, rest: seq<string>)
    requires |rest| >= 1
    ensures JoinDots([[c] + rest[0]] + rest[1..]) == [c] + JoinDots(rest)
  {
    var parts := [[c] + rest[0]] + rest[1..];
    if |rest| == 1 {
      assert JoinDots(parts) == parts[0];
    } else {
      assert parts[1..] == rest[1..];
      PrependBeforeDot(c, rest[0], JoinDots(rest[1..]));
    }
  }

  /** Concatenation regroups around the dot. */
  lemma PrependBeforeDot(c: char, a: string, t: string)
    ensures [c] + a + "." + t == [c] + (a + "." + t)
  {
  }

  /** A dot-free string is a single piece. */
  lemma SplitAllDotFree(w: string)
    requires '.' !in w
    ensures SplitAll(w) == [w]
  {
    JoinSplitAll(w);
  }

  /** A dot-free piece followed by a dot splits off as the first piece. */
  lemma {:induction false} SplitAllAfterPiece(w: string, rest: string)
    requires '.' !in w
    ensures SplitAll(w + "." + rest) == [w] + SplitAll(rest)
    decreases |w|
  {
    var s := w + "." + rest;
    if w == [] {
      assert s[1..] == rest;
    } else {
      assert s[1..] == w[1..] + "." + rest;
      SplitAllAfterPiece(w[1..], rest);
      assert [s[0]] + w[1..] == w;
    }
  }

  /** Splitting dot-free pieces joined with dots gives the pieces back. */
  lemma {:induction false} SplitAllJoin(parts: seq<string>)
    requires |parts| >= 1
    requires forall k :: 0 <= k < |parts| ==> '.' !in parts[k]
    ensures SplitAll(JoinDots(parts)) == parts
    decreases |parts|
  {
    if |parts| == 1 {
      SplitAllDotFree(parts[0]);
    } else {
      SplitAllJoin(parts[1..]);
      SplitAllAfterPiece(parts[0], JoinDots(parts[1..]));
    }
  }

  lemma JoinDotsHasDot(parts: seq<string>)
    requires |parts| >= 2
    ensures '.' in JoinDots(parts)
  {
    assert JoinDots(parts)[|parts[0]|] == '.';
  }

  /**
    Java's split of dot-free keys joined with dots gives the keys back, when
    there are at least two and the last is not empty.
   */
  lemma JavaSplitJoin(keys: seq<string>)
    requires |keys| >= 2 && keys[|keys| - 1] != ""
    requires forall k :: 0 <= k < |keys| ==> '.' !in keys[k]
    ensures JavaSplit(JoinDots(keys)) == keys
  {
    JoinDotsHasDot(keys);
    SplitAllJoin(keys);
  }

  /** The value a key path names in a nested value, if every step exists and is a map. */
  function AtPath(v: Value, keys: seq<string>): Option<Value>
    decreases |keys|
  {
    if keys == [] then Some(v)
    else match v
      case Section(m) => if keys[0] in m then AtPath(m[keys[0]], keys[1..]) else None
      case _ => None
  }

  predicate IsSection(o: Option<Value>)
  {
    o.Some? && o.value.Section?
  }

  /** One step of a path: the first key, then the rest from the value under it. */
  lemma AtPathStep(m: Entries, keys: seq<string>, p: nat)
    requires 1 <= p <= |keys|
    ensures keys[0] !in m ==> AtPath(Section(m), keys[..p]) == None
    ensures keys[0] in m ==> AtPath(Section(m), keys[..p]) == AtPath(m[keys[0]], keys[1..][..p - 1])
  {
    assert keys[..p][0] == keys[0];
    assert keys[..p][1..] == keys[1..][..p - 1];
  }

  /** Descending through maps only reaches the map the path names. */
  lemma {:induction false} DescendFound(m: Entries, keys: seq<string>)
    requires forall p :: 1 <= p <= |keys| ==> IsSection(AtPath(Section(m), keys[..p]))
    ensures IsSection(AtPath(Section(m), keys))
    ensures Descend(Some(m), keys) == Ok(Some(AtPath(Section(m), keys).value.entries))
    decreases |keys|
  {
    if keys != [] {
      AtPathStep(m, keys, 1);
      var next := m[keys[0]];
      assert next.Section?;
      forall p | 1 <= p <= |keys[1..]|
        ensures IsSection(AtPath(next, keys[1..][..p]))
      {
        AtPathStep(m, keys, p + 1);
      }
      DescendFound(next.entries, keys[1..]);
      AtPathStep(m, keys, |keys|);
      assert keys[..|keys|] == keys;
    }
  }

  /** The first step that is missing or not a map decides the outcome of the descent. */
  lemma {:induction false} DescendFails(m: Entries, keys: seq<string>, p: nat)
    requires 1 <= p <= |keys|
    requires forall q :: 1 <= q < p ==> IsSection(AtPath(Section(m), keys[..q]))
    requires !IsSection(AtPath(Section(m), keys[..p]))
    ensures AtPath(Section(m), keys[..p]).Some? ==> Descend(Some(m), keys) == Thrown(ClassCast)
    ensures AtPath(Section(m), keys[..p]).None? && p == |keys| ==> Descend(Some(m), keys) == Ok(None)
    ensures AtPath(Section(m), keys[..p]).None? && p < |keys| ==> Descend(Some(m), keys) == Thrown(NullPointer)
    decreases |keys|
  {
    AtPathStep(m, keys, p);
    if p == 1 {
      assert keys[1..][..0] == [];
      if keys[0] !in m && |keys| > 1 {
        assert Descend(None, keys[1..]) == Thrown(NullPointer);
      }
    } else {
      AtPathStep(m, keys, 1);
      var next := m[keys[0]];
      assert next.Section?;
      forall q | 1 <= q < p - 1
        ensures IsSection(AtPath(next, keys[1..][..q]))
      {
        AtPathStep(m, keys, q + 1);
      }
      DescendFails(next.entries, keys[1..], p - 1);
    }
  }

  /**
    `get` of a dotted path (at least two dot-free keys, the last non-empty)
    whose every intermediate step is a map returns exactly the value the
    path names, or null when the last key is missing.
   */
  lemma GetDottedFound(root: Entries, keys: seq<string>)
    requires |keys| >= 2 && keys[|keys| - 1] != ""
    requires forall k :: 0 <= k < |keys| ==> '.' !in keys[k]
    requires forall p :: 1 <= p < |keys| ==> IsSection(AtPath(Section(root), keys[..p]))
    ensures Get(root, JoinDots(keys)) == Ok(AtPath(Section(root), keys))
  {
    GetOfJoinDots(root, keys, JoinDots(keys));
    DescendAllButLast(root, keys);
    LastStep(root, keys);
  }

  /** Descending through every key but the last reaches the map the shorter path names. */
  lemma DescendAllButLast(root: Entries, keys: seq<string>)
    requires |keys| >= 1
    requires forall p :: 1 <= p < |keys| ==> IsSection(AtPath(Section(root), keys[..p]))
    ensures IsSection(AtPath(Section(root), keys[..|keys| - 1]))
    ensures Descend(Some(root), keys[..|keys| - 1]) == Ok(Some(AtPath(Section(root), keys[..|keys| - 1]).value.entries))
  {
    var init := keys[..|keys| - 1];
    forall p | 1 <= p <= |init|
      ensures IsSection(AtPath(Section(root), init[..p]))
    {
      assert init[..p] == keys[..p];
    }
    DescendFound(root, init);
  }

  /** `get` of dot-joined keys descends through all keys but the last, then looks the last one up. */
  lemma GetOfJoinDots(root: Entries, keys: seq<string>, path: string)
    requires |keys| >= 2 && keys[|keys| - 1] != ""
    requires forall k :: 0 <= k < |keys| ==> '.' !in keys[k]
    requires path == JoinDots(keys)
    ensures
      var d := Descend(Some(root), keys[..|keys| - 1]);
      Get(root, path) ==
        if d.Thrown? then Thrown(d.ex)
        else if d.value.None? then Thrown(NullPointer)
        else Ok(Lookup(d.value.value, keys[|keys| - 1]))
  {
    JoinDotsHasDot(keys);
    JavaSplitJoin(keys);
    assert '.' in path && JavaSplit(path) == keys;
  }

  /** The last key looked up in the map the other keys name. */
  lemma {:induction false} LastStep(m: Entries, keys: seq<string>)
    requires |keys| >= 1
    requires IsSection(AtPath(Section(m), keys[..|keys| - 1]))
    ensures AtPath(Section(m), keys) == Lookup(AtPath(Section(m), keys[..|keys| - 1]).value.entries, keys[|keys| - 1])
    decreases |keys|
  {
    if |keys| > 1 {
      AtPathStep(m, keys, |keys| - 1);
      var next := m[keys[0]];
      assert keys[1..][..|keys| - 2] == keys[1..][..|keys[1..]| - 1];
      match next
      case Section(n) =>
        LastStep(n, keys[1..]);
        AtPathStep(m, keys, |keys|);
        assert keys[..|keys|] == keys;
    }
  }

  /**
    `get` of a dotted path whose p-th key is the first that is missing or
    not a map (before the last key) throws: a missing map is dereferenced
    as null, a non-map value fails the cast.
   */
  lemma GetDottedFails(root: Entries, keys: seq<string>, p: nat)
    requires |keys| >= 2 && keys[|keys| - 1] != ""
    requires forall k :: 0 <= k < |keys| ==> '.' !in keys[k]
    requires 1 <= p < |keys|
    requires forall q :: 1 <= q < p ==> IsSection(AtPath(Section(root), keys[..q]))
    requires !IsSection(AtPath(Section(root), keys[..p]))
    ensures Get(root, JoinDots(keys))
      == Thrown(if AtPath(Section(root), keys[..p]).None? then NullPointer else ClassCast)
  {
    GetOfJoinDots(root, keys, JoinDots(keys));
    DescendFailsBeforeLast(root, keys, p);
  }

  /** `DescendFails` for the descent through every key but the last. */
  lemma DescendFailsBeforeLast(root: Entries, keys: seq<string>, p: nat)
    requires 1 <= p < |keys|
    requires forall q :: 1 <= q < p ==> IsSection(AtPath(Section(root), keys[..q]))
    requires !IsSection(AtPath(Section(root), keys[..p]))
    ensures
      var d := Descend(Some(root), keys[..|keys| - 1]);
      && (AtPath(Section(root), keys[..p]).Some? ==> d == Thrown(ClassCast))
      && (AtPath(Section(root), keys[..p]).None? && p == |keys| - 1 ==> d == Ok(None))
      && (AtPath(Section(root), keys[..p]).None? && p < |keys| - 1 ==> d == Thrown(NullPointer))
  {
    var init := keys[..|keys| - 1];
    forall q | 1 <= q <= p
      ensures init[..q] == keys[..q]
    {
    }
    DescendFails(root, init, p);
  }

  /** A trailing dot is dropped by the split, so "key." finds the same as "key". */
  lemma TrailingDotIgnored(root: Entries, key: string)
    requires key != "" && '.' !in key
    ensures Get(root, key + ".") == Get(root, key)
  {
    assert (key + ".")[|key|] == '.';
    SplitAllAfterPiece(key, "");
    SplitAllDotFree("");
    assert key + "." + "" == key + ".";
    assert SplitAll(key + ".") == [key, ""];
    assert [key, ""][..1] == [key];
    assert DropTrailingEmpty([key]) == [key];
    assert DropTrailingEmpty([key, ""]) == [key];
    assert '.' in key + ".";
    assert JavaSplit(key + ".") == [key];
  }

  /** A path of dots only splits into no pieces, and indexing the last piece throws. */
  lemma {:induction false} OnlyDotsThrow(root: Entries, n: nat)
    requires n >= 1
    ensures Get(root, seq(n, _ => '.')) == Thrown(IndexOutOfBounds)
  {
    var path := seq(n, _ => '.');
    assert path[0] == '.';
    AllDotsSplit(n);
  }

  lemma {:induction false} AllDotsSplit(n: nat)
    ensures SplitAll(seq(n, _ => '.')) == seq(n + 1, _ => "")
    ensures DropTrailingEmpty(seq(n + 1, _ => "")) == []
  {
    if n > 0 {
      AllDotsSplit(n - 1);
      assert seq(n, _ => '.')[1..] == seq(n - 1, _ => '.');
      assert seq(n + 1, _ => "") == [""] + seq(n, _ => "");
      assert seq(n + 1, _ => "")[..n] == seq(n, _ => "");
    }
  }

  /** `getBoolean` of a root key: null reads as false, a non-string fails the cast. */
  lemma GetBooleanOfRootKey(root: Entries, key: string)
    requires '.' !in key
    ensures key !in root ==> GetBoolean(root, key) == Ok(false)
    ensures key in root && !root[key].Scalar? ==> GetBoolean(root, key) == Thrown(ClassCast)
    ensures key in root && root[key].Scalar? ==>
      GetBoolean(root, key) == Ok(Text.EqualsIgnoreCase(root[key].text, "true"))
  {
  }
}

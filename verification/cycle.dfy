/** The order in which repeated `get_items` calls visit the active split.

    Because `get_items` advances the cursor before it reads a name, a run
    of calls starting at cursor `c` visits positions `c + 1, c + 2, ...`
    modulo the split's length: a fresh loader's first call loads position `1 mod len`,
    and any `len` consecutive calls visit every position exactly once.
 */
module Cycle {
  import opened Results
  import opened Rasters
  import opened DatasetLoader

  /** The loader after a run of calls, and the names the run loaded. */
  datatype Run = Run(last: Loader, names: seq<Name>)

  /** The position the `k`-th call (counted from 0) of a run starting at
      cursor `c` loads in a split of length `len`. */
  function Position(c: nat, k: nat, len: nat): nat
    requires len > 0
  {
    (c + k + 1) % len
  }

  /** `n` successive cursor steps of `get_items`. */
  function Visit(s: Loader, n: nat): (r: Result<Run>)
    ensures r.Ok? <==> (n == 0 || GetLen(s) > 0)
    ensures r.Err? ==> r.error == EmptySplit
    ensures r.Ok? ==> |r.value.names| == n
    decreases n
  {
    if n == 0 then Ok(Run(s, []))
    else
      match Advance(s)
      case Err(e) => Err(e)
      case Ok(st) =>
        match Visit(st.next, n - 1)
        case Err(e) => Err(e)
        case Ok(rest) => Ok(Run(rest.last, [st.name] + rest.names))
  }

  /** The loader a run leaves behind: same configuration and splits, the
      other split's cursor untouched, the active cursor moved `n` places. */
  predicate Moved(s: Loader, t: Loader, n: nat)
    requires GetLen(s) > 0
  {
    && t.cfg == s.cfg
    && t.trainNames == s.trainNames
    && t.validNames == s.validNames
    && (if s.cfg.isTrain then t.validIdx == s.validIdx else t.trainIdx == s.trainIdx)
    && GetIdx(t) == (GetIdx(s) + n) % GetLen(s)
  }

  /** Call `k` of a run from cursor `c` loads position `(c + k + 1) mod len`. */
  lemma {:induction false} VisitOrder(s: Loader, n: nat)
    requires n > 0 && GetLen(s) > 0
    ensures Visit(s, n).Ok?
    ensures forall k :: 0 <= k < n ==>
      Visit(s, n).value.names[k] == Active(s)[Position(GetIdx(s), k, GetLen(s))]
    decreases n
  {
    var st := Advance(s).value;
    if n > 1 {
      VisitOrder(st.next, n - 1);
      StepOrder(s, st.next, st.name, Visit(st.next, n - 1).value.names);
    }
  }

  /** One call followed by a run from the advanced loader visits positions
      from the first loader's cursor. */
  lemma StepOrder(s: Loader, t: Loader, name: Name, rest: seq<Name>)
    requires GetLen(s) > 0
    requires Active(t) == Active(s)
    requires GetIdx(t) == (GetIdx(s) + 1) % GetLen(s)
    requires name == Active(s)[Position(GetIdx(s), 0, GetLen(s))]
    requires forall k :: 0 <= k < |rest| ==>
      rest[k] == Active(t)[Position(GetIdx(t), k, GetLen(t))]
    ensures forall k :: 0 <= k < |rest| + 1 ==>
      ([name] + rest)[k] == Active(s)[Position(GetIdx(s), k, GetLen(s))]
  {
    ConsPositions(Active(s), GetIdx(s), name, rest);
  }

  /** `StepOrder` for a plain sequence `a` and cursor `c`. */
  lemma ConsPositions<T>(a: seq<T>, c: nat, name: T, rest: seq<T>)
    requires |a| > 0
    requires name == a[Position(c, 0, |a|)]
    requires forall k :: 0 <= k < |rest| ==> rest[k] == a[Position((c + 1) % |a|, k, |a|)]
    ensures forall k :: 0 <= k < |rest| + 1 ==> ([name] + rest)[k] == a[Position(c, k, |a|)]
  {
    var len := |a|;
    var all := [name] + rest;
    forall k | 0 <= k < |rest| + 1
      ensures all[k] == a[Position(c, k, len)]
    {
      if k > 0 {
        assert all[k] == rest[k - 1];
        ModShift(c + 1, k, len);
        assert Position((c + 1) % len, k - 1, len) == Position(c, k, len);
      }
    }
  }

  /** A run leaves the active cursor at `(c + n) mod len` and changes
      nothing else. */
  lemma {:induction false} VisitMoves(s: Loader, n: nat)
    requires n > 0 && GetLen(s) > 0
    ensures Visit(s, n).Ok?
    ensures Moved(s, Visit(s, n).value.last, n)
    decreases n
  {
    var st := Advance(s).value;
    if n > 1 {
      VisitMoves(st.next, n - 1);
      MovedStep(s, st.next, Visit(st.next, n - 1).value.last, n);
    }
  }

  /** One cursor step followed by a run of `n - 1` steps moves the cursor
      `n` places. */
  lemma MovedStep(s: Loader, t: Loader, u: Loader, n: nat)
    requires GetLen(s) > 0 && n > 1
    requires IncIdx(s) == Ok(t)
    requires Moved(t, u, n - 1)
    ensures Moved(s, u, n)
  {
    ModShift(GetIdx(s) + 1, n - 1, GetLen(s));
  }

  /** The `n`-th call (counting from 1) on a freshly constructed loader
      loads position `n mod len` of the active split; in particular the
      first call loads position 1, not position 0, when the split has more
      than one name. */
  lemma FreshLoadOrder(names: seq<Name>, num: int, den: int, cfg: Config, n: nat)
    requires den > 0 && n >= 1
    requires New(names, names, num, den, cfg).Ok?
    requires GetLen(New(names, names, num, den, cfg).value) > 0
    ensures var s := New(names, names, num, den, cfg).value;
      Visit(s, n).Ok? &&
      Visit(s, n).value.names[n - 1] == Active(s)[n % GetLen(s)]
  {
    var s := New(names, names, num, den, cfg).value;
    VisitOrder(s, n);
    assert GetIdx(s) == 0;
    assert Position(0, n - 1, GetLen(s)) == n % GetLen(s);
  }

  /** The split rotated left by `d` places. */
  function Rotate<T>(a: seq<T>, d: nat): seq<T>
    requires d <= |a|
  {
    a[d..] + a[..d]
  }

  /** Rotation rearranges the split without adding or losing a name. */
  lemma RotatePermutes<T>(a: seq<T>, d: nat)
    requires d <= |a|
    ensures multiset(Rotate(a, d)) == multiset(a)
  {
    assert a == a[..d] + a[d..];
  }

  /** Position `k` of a run, written without a remainder: the run starts at
      `d = (c + 1) mod len` and wraps to 0 once it reaches the end. */
  lemma PositionRotates(c: nat, k: nat, len: nat)
    requires len > 0 && k < len
    ensures var d := (c + 1) % len;
      Position(c, k, len) == if d + k < len then d + k else d + k - len
  {
    ModShift(c + 1, k, len);
    WrapOnce((c + 1) % len + k, len);
  }

  /** Some call of the first `len` ones loads position `p`. */
  ghost predicate Visited(c: nat, len: nat, p: nat)
    requires len > 0
  {
    exists k :: 0 <= k < len && Position(c, k, len) == p
  }

  /** Over `len` consecutive calls every position is loaded, and no two of
      the calls load the same position. */
  lemma PositionsBijective(c: nat, len: nat)
    requires len > 0
    ensures forall p :: 0 <= p < len ==> Visited(c, len, p)
    ensures forall k1, k2 ::
      (0 <= k1 < len && 0 <= k2 < len && Position(c, k1, len) == Position(c, k2, len))
      ==> k1 == k2
  {
    var d := (c + 1) % len;
    forall p | 0 <= p < len
      ensures Visited(c, len, p)
    {
      var k := if p >= d then p - d else p + len - d;
      PositionRotates(c, k, len);
      assert Position(c, k, len) == p;
    }
    forall k1, k2 | 0 <= k1 < len && 0 <= k2 < len &&
      Position(c, k1, len) == Position(c, k2, len)
      ensures k1 == k2
    {
      PositionRotates(c, k1, len);
      PositionRotates(c, k2, len);
    }
  }

  /** Any `len` consecutive calls load the active split rotated to start
      just after the cursor, so their names are, as a multiset, exactly
      the split's. */
  lemma FullCycle(s: Loader)
    requires GetLen(s) > 0
    ensures Visit(s, GetLen(s)).Ok?
    ensures Visit(s, GetLen(s)).value.names ==
      Rotate(Active(s), (GetIdx(s) + 1) % GetLen(s))
    ensures multiset(Visit(s, GetLen(s)).value.names) == multiset(Active(s))
  {
    VisitOrder(s, GetLen(s));
    ActiveRotates(s, Visit(s, GetLen(s)).value.names);
    RotatePermutes(Active(s), (GetIdx(s) + 1) % GetLen(s));
  }

  /** `PositionsRotate` for the active split of a loader. */
  lemma ActiveRotates(s: Loader, names: seq<Name>)
    requires GetLen(s) > 0 && |names| == GetLen(s)
    requires forall k :: 0 <= k < |names| ==>
      names[k] == Active(s)[Position(GetIdx(s), k, GetLen(s))]
    ensures names == Rotate(Active(s), (GetIdx(s) + 1) % GetLen(s))
  {
    PositionsRotate(Active(s), names, GetIdx(s));
  }

  /** A sequence that takes position `k` from `Position(c, k, len)` is the
      rotation starting at `(c + 1) mod len`. */
  lemma PositionsRotate<T>(a: seq<T>, names: seq<T>, c: nat)
    requires |a| > 0 && |names| == |a|
    requires forall k :: 0 <= k < |a| ==> names[k] == a[Position(c, k, |a|)]
    ensures names == Rotate(a, (c + 1) % |a|)
  {
    var len := |a|;
    var rot := Rotate(a, (c + 1) % len);
    forall k | 0 <= k < len
      ensures names[k] == rot[k]
    {
      PositionRotates(c, k, len);
    }
  }

  /** A full cycle of calls returns a valid loader to the state it started
      in. */
  lemma CycleReturns(s: Loader)
    requires GetLen(s) > 0 && Valid(s)
    ensures Visit(s, GetLen(s)).Ok?
    ensures Visit(s, GetLen(s)).value.last == s
  {
    VisitMoves(s, GetLen(s));
    MovedFullCycle(s, Visit(s, GetLen(s)).value.last);
  }

  /** Moving a valid cursor by the split's length leaves it in place. */
  lemma MovedFullCycle(s: Loader, t: Loader)
    requires GetLen(s) > 0 && Valid(s) && Moved(s, t, GetLen(s))
    ensures t == s
  {
    var len, c := GetLen(s), GetIdx(s);
    WrapOnce(c + len, len);
  }

  /** A sum below twice the length wraps at most once. */
  lemma WrapOnce(x: nat, len: nat)
    requires len > 0 && x < 2 * len
    ensures x % len == if x < len then x else x - len
  {
    if x < len {
      ModUnique(x, 0, x, len);
    } else {
      ModUnique(x, 1, x - len, len);
    }
  }

  /** The stream of names repeats with period `len`: call `k + len` loads
      what call `k` loaded. */
  lemma VisitPeriodic(s: Loader, n: nat)
    requires GetLen(s) > 0 && n > GetLen(s)
    ensures Visit(s, n).Ok?
    ensures forall k :: 0 <= k < n - GetLen(s) ==>
      Visit(s, n).value.names[k + GetLen(s)] == Visit(s, n).value.names[k]
  {
    var len, c := GetLen(s), GetIdx(s);
    VisitOrder(s, n);
    forall k | 0 <= k < n - len
      ensures Position(c, k + len, len) == Position(c, k, len)
    {
      ModAddMultiple(c + k + 1, 1, len);
    }
  }

  /** `n` successive `get_items` calls, each made on the loader the previous
      one left behind, with the same decoders. */
  function Calls(s: Loader, readLidar: Name -> Option<Mask>, readImage: Name -> Option<Image>,
                 n: nat): (r: seq<Fetched>)
    ensures |r| == n
    decreases n
  {
    if n == 0 then []
    else
      var f := GetItems(s, readLidar, readImage);
      [f] + Calls(f.next, readLidar, readImage, n - 1)
  }

  /** One `get_items` call is one step of `Visit`: it leaves the loader the
      step leaves, and a batch it returns is the name the step loads. */
  lemma GetItemsStep(s: Loader, readLidar: Name -> Option<Mask>, readImage: Name -> Option<Image>)
    requires GetLen(s) > 0
    ensures Visit(s, 1).Ok?
    ensures var f := GetItems(s, readLidar, readImage);
      var name := Visit(s, 1).value.names[0];
      && f.next == Visit(s, 1).value.last
      && (f.batch.Ok? <==> Loadable(readLidar(name), readImage(name)))
      && (f.batch.Ok? ==> f.batch.value.name == name)
  {
  }

  /** Call result `f` is what reading `name` gives: a batch exactly when
      that pair loads, and the batch carries that name. */
  predicate Reads(f: Fetched, name: Name,
                  readLidar: Name -> Option<Mask>, readImage: Name -> Option<Image>)
  {
    && (f.batch.Ok? <==> Loadable(readLidar(name), readImage(name)))
    && (f.batch.Ok? ==> f.batch.value.name == name)
  }

  /** A run of `n` `get_items` calls follows `Visit(s, n)`: call `k` reads
      the `k`-th name of the run, and the last call leaves the loader the
      run leaves. So the visiting order, the full cycle and the periodicity
      above hold for `get_items` itself. */
  lemma {:induction false} CallsFollowVisit(s: Loader, readLidar: Name -> Option<Mask>,
                                            readImage: Name -> Option<Image>, n: nat)
    requires n > 0 && GetLen(s) > 0
    ensures Visit(s, n).Ok?
    ensures Calls(s, readLidar, readImage, n)[n - 1].next == Visit(s, n).value.last
    ensures forall k :: 0 <= k < n ==>
      Reads(Calls(s, readLidar, readImage, n)[k], Visit(s, n).value.names[k], readLidar, readImage)
    decreases n
  {
    GetItemsStep(s, readLidar, readImage);
    var f := GetItems(s, readLidar, readImage);
    if n > 1 {
      CallsFollowVisit(f.next, readLidar, readImage, n - 1);
      ReadsCons(f, Visit(s, 1).value.names[0], Calls(f.next, readLidar, readImage, n - 1),
                Visit(f.next, n - 1).value.names, readLidar, readImage);
    }
  }

  /** Prepending one matching call to a matching run keeps them matching. */
  lemma ReadsCons(f: Fetched, name: Name, calls: seq<Fetched>, names: seq<Name>,
                  readLidar: Name -> Option<Mask>, readImage: Name -> Option<Image>)
    requires |calls| == |names|
    requires Reads(f, name, readLidar, readImage)
    requires forall k :: 0 <= k < |calls| ==> Reads(calls[k], names[k], readLidar, readImage)
    ensures forall k :: 0 <= k <= |calls| ==>
      Reads(([f] + calls)[k], ([name] + names)[k], readLidar, readImage)
  {
    forall k | 0 <= k <= |calls|
      ensures Reads(([f] + calls)[k], ([name] + names)[k], readLidar, readImage)
    {
      if k > 0 {
        assert ([f] + calls)[k] == calls[k - 1];
        assert ([name] + names)[k] == names[k - 1];
      }
    }
  }

  /** Reducing the first summand modulo `len` does not change the sum's
      residue. */
  lemma {:induction false} ModShift(a: nat, b: nat, len: nat)
    requires len > 0
    ensures (a % len + b) % len == (a + b) % len
  {
    var q := a / len;
    assert a == q * len + a % len;
    ModAddMultiple(a % len + b, q, len);
  }

  lemma ModAddMultiple(x: nat, q: nat, len: nat)
    requires len > 0
    ensures (x + q * len) % len == x % len
  {
    var y := x + q * len;
    assert y == (x / len + q) * len + x % len;
    ModUnique(y, x / len + q, x % len, len);
  }

  lemma ModUnique(y: int, q: int, m: int, len: nat)
    requires len > 0 && 0 <= m < len && y == q * len + m
    ensures y % len == m
  {
    var q', m' := y / len, y % len;
    assert y == q' * len + m';
    if q' < q {
      MulStep(q', q, len);
      assert false;
    } else if q' > q {
      MulStep(q, q', len);
      assert false;
    }
  }

  lemma MulStep(a: int, b: int, len: nat)
    requires a < b && len > 0
    ensures a * len + len <= b * len
  {
    var d := b - a;
    assert b * len == a * len + d * len;
    assert d * len == (d - 1) * len + len;
    assert (d - 1) * len >= 0;
  }
}

/** The reference's entry array: slots in insertion order, a deleted entry leaving a hole. */
module EntryArray {
  import opened Words

  /** The live entries in order: what is kept of the array. */
  function Live<E>(ea: seq<Option<E>>): seq<E>
  {
    if |ea| == 0 then []
    else
      var before := Live(ea[..|ea| - 1]);
      match ea[|ea| - 1]
      case None => before
      case Some(e) => before + [e]
  }

  /** The slots of the live entries. */
  function Spots<E>(ea: seq<Option<E>>): seq<nat>
  {
    if |ea| == 0 then []
    else
      var before := Spots(ea[..|ea| - 1]);
      match ea[|ea| - 1]
      case None => before
      case Some(e) => before + [|ea| - 1]
  }

  predicate Ascending(s: seq<nat>)
  {
    forall i, j :: 0 <= i < j < |s| ==> s[i] < s[j]
  }

  /** Each live entry is at its slot, the slots ascend, and every other slot is a hole. */
  lemma {:induction false} SpotsOfLive<E>(ea: seq<Option<E>>)
    ensures |Spots(ea)| == |Live(ea)| <= |ea| && Ascending(Spots(ea))
    ensures forall p :: 0 <= p < |Spots(ea)| ==> Spots(ea)[p] < |ea| && ea[Spots(ea)[p]] == Some(Live(ea)[p])
    ensures forall i :: 0 <= i < |ea| && ea[i].Some? ==> i in Spots(ea)
  {
    if |ea| > 0 {
      var short, n := ea[..|ea| - 1], |ea| - 1;
      SpotsOfLive(short);
      forall i | 0 <= i < |ea| && ea[i].Some? ensures i in Spots(ea) {
        if i < n {
          assert short[i].Some?;
        } else {
          assert Spots(ea)[|Spots(short)|] == n;
        }
      }
    }
  }

  lemma Append<E>(ea: seq<Option<E>>, e: E)
    ensures Live(ea + [Some(e)]) == Live(ea) + [e]
    ensures Spots(ea + [Some(e)]) == Spots(ea) + [|ea|]
  {
    assert (ea + [Some(e)])[..|ea|] == ea;
  }

  lemma {:induction false} SpotsInRange<E>(ea: seq<Option<E>>)
    ensures |Spots(ea)| == |Live(ea)| <= |ea|
    ensures forall p :: 0 <= p < |Spots(ea)| ==> Spots(ea)[p] < |ea|
  {
    if |ea| > 0 { SpotsInRange(ea[..|ea| - 1]); }
  }

  /** Replacing the last slot, or one before it. */
  lemma ReplaceLast<E>(ea: seq<Option<E>>, x: Option<E>)
    requires |ea| > 0
    ensures ea[|ea| - 1 := x][..|ea| - 1] == ea[..|ea| - 1]
  {
  }

  lemma ReplaceInner<E>(ea: seq<Option<E>>, i: nat, x: Option<E>)
    requires i + 1 < |ea|
    ensures ea[i := x][..|ea| - 1] == ea[..|ea| - 1][i := x]
  {
  }

  lemma {:induction false} Overwrite<E>(ea: seq<Option<E>>, p: nat, e: E)
    requires p < |Spots(ea)|
    ensures |Spots(ea)| == |Live(ea)| && Spots(ea)[p] < |ea|
    ensures Live(ea[Spots(ea)[p] := Some(e)]) == Live(ea)[p := e]
    ensures Spots(ea[Spots(ea)[p] := Some(e)]) == Spots(ea)
  {
    var short, i := ea[..|ea| - 1], Spots(ea)[p];
    SpotsInRange(short);
    if p == |Spots(short)| {
      ReplaceLast(ea, Some(e));
    } else {
      ReplaceInner(ea, i, Some(e));
      Overwrite(short, p, e);
    }
  }

  /** Deleting an entry punches a hole; the others keep their slots and order. */
  lemma {:induction false} Punch<E>(ea: seq<Option<E>>, p: nat)
    requires p < |Spots(ea)|
    ensures |Spots(ea)| == |Live(ea)| && Spots(ea)[p] < |ea|
    ensures Live(ea[Spots(ea)[p] := None]) == Live(ea)[..p] + Live(ea)[p + 1..]
    ensures Spots(ea[Spots(ea)[p] := None]) == Spots(ea)[..p] + Spots(ea)[p + 1..]
  {
    var short, i := ea[..|ea| - 1], Spots(ea)[p];
    SpotsInRange(short);
    if p == |Spots(short)| {
      ReplaceLast(ea, None);
    } else {
      ReplaceInner(ea, i, None);
      Punch(short, p);
    }
  }

  /** The array squeezed: no hole. */
  function Packed<E>(es: seq<E>): (ea: seq<Option<E>>)
    ensures |ea| == |es|
  {
    seq(|es|, i requires 0 <= i < |es| => Some(es[i]))
  }

  function Count(n: nat): (s: seq<nat>)
    ensures |s| == n && forall i :: 0 <= i < n ==> s[i] == i
  {
    seq(n, i requires 0 <= i < n => i)
  }

  lemma {:induction false} PackedLive<E>(es: seq<E>)
    ensures Live(Packed(es)) == es && Spots(Packed(es)) == Count(|es|)
  {
    if |es| > 0 {
      var short := es[..|es| - 1];
      PackedLive(short);
      assert Packed(es)[..|es| - 1] == Packed(short);
      assert es == short + [es[|es| - 1]];
      assert Count(|es|) == Count(|short|) + [|short|];
    }
  }

  /** As many entries as slots: there is no hole. */
  lemma {:induction false} FullIsPacked<E>(ea: seq<Option<E>>)
    requires |Live(ea)| == |ea|
    ensures ea == Packed(Live(ea))
  {
    if |ea| > 0 {
      var short := ea[..|ea| - 1];
      SpotsOfLive(short);
      FullIsPacked(short);
      assert ea == short + [ea[|ea| - 1]];
    }
  }

  /** The number of slots up to `slot`: where a walk that is at `slot` goes on. */
  function After(slots: seq<nat>, slot: nat): (p: nat)
    ensures p <= |slots|
  {
    if |slots| == 0 || slots[0] > slot then 0 else 1 + After(slots[1..], slot)
  }

  lemma {:induction false} AfterSplits(slots: seq<nat>, slot: nat)
    requires Ascending(slots)
    ensures forall i :: 0 <= i < After(slots, slot) ==> slots[i] <= slot
    ensures forall i :: After(slots, slot) <= i < |slots| ==> slots[i] > slot
  {
    if |slots| > 0 && slots[0] <= slot {
      AfterSplits(slots[1..], slot);
      forall i | 0 < i < |slots| ensures slots[i] == slots[1..][i - 1] {
      }
    }
  }

  /** The walk by slots steps to the next live slot of the array with holes. */
  lemma NextLive<E>(ea: seq<Option<E>>, slot: nat)
    ensures var p := After(Spots(ea), slot);
      && |Spots(ea)| == |Live(ea)|
      && (p < |Spots(ea)| ==>
          var i := Spots(ea)[p];
          slot < i < |ea| && ea[i] == Some(Live(ea)[p]) && forall j :: slot < j < i ==> ea[j].None?)
      && (p == |Spots(ea)| ==> forall j :: slot < j < |ea| ==> ea[j].None?)
  {
    SpotsOfLive(ea);
    AfterSplits(Spots(ea), slot);
    var p := After(Spots(ea), slot);
    forall j | slot < j < |ea| && ea[j].Some? ensures p < |Spots(ea)| && j >= Spots(ea)[p] {
      var q :| 0 <= q < |Spots(ea)| && Spots(ea)[q] == j;
      assert q >= p;
    }
  }

  lemma FirstLive<E>(ea: seq<Option<E>>)
    ensures |Spots(ea)| == |Live(ea)|
    ensures |Spots(ea)| > 0 ==>
      var i := Spots(ea)[0]; i < |ea| && ea[i] == Some(Live(ea)[0]) && forall j :: 0 <= j < i ==> ea[j].None?
    ensures |Spots(ea)| == 0 ==> forall j :: 0 <= j < |ea| ==> ea[j].None?
  {
    SpotsOfLive(ea);
    forall j | 0 <= j < |ea| && ea[j].Some? ensures |Spots(ea)| > 0 && j >= Spots(ea)[0] {
      var q :| 0 <= q < |Spots(ea)| && Spots(ea)[q] == j;
    }
  }
}

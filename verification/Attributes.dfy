/** The loop of CSI m over its parameters, and how it ends (sys/drivers/virtual_console.c). */
module Attributes {
  import opened Bytes
  import opened EscapeCodes

  /** 38 and 48 announce an extended colour. */
  predicate IsExtended(n: nat) {
    n == 38 || n == 48
  }

  /** The other parameters that vc_set_attr recognises: colours, attributes, and the reset. */
  predicate IsSimple(n: nat) {
    || 30 <= n <= 37 || n == 39 || 90 <= n <= 97
    || 40 <= n <= 47 || n == 49 || 100 <= n <= 107
    || n in {0, 1, 2, 3, 4, 5, 7, 8, 9, 22, 23, 24, 25, 27, 28, 29}
  }

  /** Every number that the loop does not stop at. */
  lemma RecognisedAre(n: nat)
    ensures IsSimple(n) || IsExtended(n) <==>
      n <= 5 || 7 <= n <= 9 || 22 <= n <= 25 || 27 <= n <= 49 || 90 <= n <= 97 || 100 <= n <= 107
  {
  }

  /** Where the loop is: before the parameter at p, done, or behind the array. */
  datatype Place = At(p: nat) | Over | Outside

  /** Where vc_set_256_rgb sends the loop: it is given the first parameter, not the one that
      announced the colour, so this is the same place every time. */
  function Resumed(par: seq<nat>): nat
    requires |par| == NPAR
  {
    if par[1] == 5 then 4 else if par[1] == 2 then 6 else 2
  }

  /** One round of the loop over n parameters. */
  function Round(par: seq<nat>, n: nat, at: Place): Place
    requires |par| == NPAR
  {
    if !at.At? then at
    else if at.p >= n then Over
    else if at.p >= NPAR then Outside
    else if IsExtended(par[at.p]) then At(Resumed(par))
    else if IsSimple(par[at.p]) then At(at.p + 1)
    else Over
  }

  /** The place after k rounds. */
  function Rounds(par: seq<nat>, n: nat, at: Place, k: nat): Place
    requires |par| == NPAR
    decreases k
  {
    if k == 0 then at else Rounds(par, n, Round(par, n, at), k - 1)
  }

  /** However many rounds, the loop is not done. */
  ghost predicate Endless(par: seq<nat>, n: nat)
    requires |par| == NPAR
  {
    forall k: nat :: Rounds(par, n, At(0), k).At?
  }

  /** What comes of the parameters from p on up to the first extended colour. */
  function Stretch(par: seq<nat>, n: nat, p: nat): Place
    requires |par| == NPAR
    decreases n - p
  {
    if p >= n then Over
    else if p >= NPAR then Outside
    else if IsExtended(par[p]) then At(Resumed(par))
    else if IsSimple(par[p]) then Stretch(par, n, p + 1)
    else Over
  }

  /** The first extended colour sends the loop to a fixed place, so that a second one will send
      it there for ever. */
  function Fate(par: seq<nat>, n: nat): Place
    requires |par| == NPAR
  {
    var first := Stretch(par, n, 0);
    if first.At? then Stretch(par, n, first.p) else first
  }

  lemma {:induction false} RoundsAdd(par: seq<nat>, n: nat, at: Place, j: nat, k: nat)
    requires |par| == NPAR
    ensures Rounds(par, n, at, j + k) == Rounds(par, n, Rounds(par, n, at, j), k)
    decreases j
  {
    if j > 0 {
      RoundsAdd(par, n, Round(par, n, at), j - 1, k);
    }
  }

  lemma {:induction false} StaysDone(par: seq<nat>, n: nat, at: Place, k: nat)
    requires |par| == NPAR && !at.At?
    ensures Rounds(par, n, at, k) == at
  {
    if k > 0 {
      StaysDone(par, n, at, k - 1);
    }
  }

  /** The loop gets to the end of a stretch, and is not done before. */
  lemma {:induction false} StretchEnds(par: seq<nat>, n: nat, p: nat) returns (k: nat)
    requires |par| == NPAR
    ensures 0 < k && Rounds(par, n, At(p), k) == Stretch(par, n, p)
    ensures forall j | 0 <= j < k :: Rounds(par, n, At(p), j).At?
    decreases n - p
  {
    if p < n && p < NPAR && !IsExtended(par[p]) && IsSimple(par[p]) {
      k := StretchEnds(par, n, p + 1);
      k := k + 1;
      forall j | 0 <= j < k ensures Rounds(par, n, At(p), j).At? {
        if j > 0 {
          assert Rounds(par, n, At(p), j) == Rounds(par, n, At(p + 1), j - 1);
        }
      }
    } else {
      k := 1;
      assert Rounds(par, n, At(p), 1) == Rounds(par, n, Round(par, n, At(p)), 0);
    }
  }

  lemma {:induction false} NeverDone(par: seq<nat>, n: nat, p: nat, k: nat)
    requires |par| == NPAR && Stretch(par, n, p).At? && Stretch(par, n, Resumed(par)).At?
    ensures Rounds(par, n, At(p), k).At?
    decreases k
  {
    var j := StretchEnds(par, n, p);
    StretchTarget(par, n, p);
    if k >= j {
      RoundsAdd(par, n, At(p), j, k - j);
      NeverDone(par, n, Resumed(par), k - j);
    }
  }

  lemma {:induction false} StretchTarget(par: seq<nat>, n: nat, p: nat)
    requires |par| == NPAR
    ensures Stretch(par, n, p).At? ==> Stretch(par, n, p) == At(Resumed(par))
    decreases n - p
  {
    if p < n && p < NPAR && !IsExtended(par[p]) && IsSimple(par[p]) {
      StretchTarget(par, n, p + 1);
    }
  }

  /** CSI m goes on for ever exactly if an extended colour is reached, and again from the place
      to which it sends the loop; otherwise it gets done, or leaves the array, as Fate says. */
  lemma FateIsExact(par: seq<nat>, n: nat)
    requires |par| == NPAR
    ensures Fate(par, n).At? <==> Endless(par, n)
    ensures forall end: Place | !end.At? :: Fate(par, n) == end <==> exists k: nat :: Rounds(par, n, At(0), k) == end
  {
    StretchTarget(par, n, 0);
    if Fate(par, n).At? {
      forall k: nat ensures Rounds(par, n, At(0), k).At? {
        NeverDone(par, n, 0, k);
      }
    } else {
      var k := FateReached(par, n);
      forall j: nat | !Rounds(par, n, At(0), j).At? ensures Rounds(par, n, At(0), j) == Fate(par, n) {
        DoneOnce(par, n, At(0), j, k);
      }
    }
  }

  lemma FateReached(par: seq<nat>, n: nat) returns (k: nat)
    requires |par| == NPAR && !Fate(par, n).At?
    ensures Rounds(par, n, At(0), k) == Fate(par, n)
  {
    k := StretchEnds(par, n, 0);
    var first := Stretch(par, n, 0);
    if first.At? {
      var j := StretchEnds(par, n, first.p);
      RoundsAdd(par, n, At(0), k, j);
      k := k + j;
    }
  }

  /** There is one way to be done. */
  lemma DoneOnce(par: seq<nat>, n: nat, at: Place, j: nat, k: nat)
    requires |par| == NPAR && !Rounds(par, n, at, j).At? && !Rounds(par, n, at, k).At?
    ensures Rounds(par, n, at, j) == Rounds(par, n, at, k)
  {
    var least, most := if j < k then j else k, if j < k then k else j;
    RoundsAdd(par, n, at, least, most - least);
    StaysDone(par, n, Rounds(par, n, at, least), most - least);
  }

  /** One colour that is given as it should be ends well... */
  lemma OneColourEnds(par: seq<nat>)
    requires |par| == NPAR && IsExtended(par[0])
    ensures par[1] == 5 ==> Fate(par, 3) == Over
    ensures par[1] == 2 ==> Fate(par, 5) == Over
  {
  }

  /** ...but the parameter behind it is skipped, whatever it is. A second colour is reached as
      soon as one more parameter comes before it, and then there is no end. */
  lemma ParameterIsSkipped(par: seq<nat>, n: nat, v: nat)
    requires |par| == NPAR && IsExtended(par[0])
    ensures par[1] == 5 ==> Fate(par[3 := v], n) == Fate(par, n)
    ensures par[1] == 2 ==> Fate(par[5 := v], n) == Fate(par, n)
    ensures par[1] == 5 && n > 4 && IsExtended(par[4]) ==> Endless(par, n)
    ensures par[1] == 2 && n > 6 && IsExtended(par[6]) ==> Endless(par, n)
  {
    FateIsExact(par, n);
    if par[1] == 5 {
      SameStretch(par, par[3 := v], n, 4);
    } else if par[1] == 2 {
      SameStretch(par, par[5 := v], n, 6);
    }
  }

  lemma {:induction false} SameStretch(par: seq<nat>, par': seq<nat>, n: nat, p: nat)
    requires |par| == |par'| == NPAR && p > 0 && par[1] == par'[1] && forall i | p <= i < NPAR :: par[i] == par'[i]
    ensures Stretch(par', n, p) == Stretch(par, n, p)
    decreases n - p
  {
    if p < n && p < NPAR {
      SameStretch(par, par', n, p + 1);
    }
  }

  /** vc_set_attr, as far as the loop goes. It is followed until it is done, leaves the array,
      or meets an extended colour for the second time. */
  method SetAttr(par: seq<nat>, n: nat) returns (end: Place)
    requires |par| == NPAR
    ensures end == Fate(par, n) && (end.At? <==> Endless(par, n))
  {
    FateIsExact(par, n);
    StretchTarget(par, n, 0);
    var p: nat, met := 0, false;
    while p < n
      invariant Fate(par, n) == (if met || !Stretch(par, n, p).At? then Stretch(par, n, p) else Stretch(par, n, Resumed(par)))
      decreases !met, n - p
    {
      if p >= NPAR {
        return Outside;
      }
      if IsExtended(par[p]) {
        if met {
          return At(Resumed(par));
        }
        met := true;
        p := Extended(par);
      } else if IsSimple(par[p]) {
        p := p + 1;
      } else {
        return Over;
      }
    }
    end := Over;
  }

  /** The moves of vc_set_256_rgb, vc_set_256 and vc_set_rgb, then that of the loop. */
  method Extended(par: seq<nat>) returns (p: nat)
    requires |par| == NPAR
    ensures p == Resumed(par)
  {
    p := 1;
    if par[p] == 5 {
      p := p + 1;
      p := p + 1;
    } else if par[p] == 2 {
      p := p + 1;
      p := p + 3;
    }
    p := p + 1;
  }
}

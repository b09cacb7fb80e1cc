/**
 * The first-generation maze of src/maze.rs: a `width` by `height` vector of
 * gate flag sets over the two flags HORI and VERT, and `toggle`, which
 * complements each set within those two flags (the complement of a bitflags
 * set keeps only the declared flags).
 */
module OldMazes {
  /** A `u32` flag set. */
  datatype GateWay = GateWay(bits: bv32)

  const HORI: bv32 := 1
  const VERT: bv32 := 2
  /** Every declared flag. */
  const ALL: bv32 := 3

  const EMPTY: GateWay := GateWay(0)

  /** The set holds declared flags only. */
  predicate WellFormed(g: GateWay) {
    g.bits & !ALL == 0
  }

  predicate Has(g: GateWay, flag: bv32) {
    g.bits & flag == flag
  }

  /**
   * `!gate`: the complement, truncated to the declared flags; it holds each
   * flag exactly when the set does not, and nothing else.
   */
  function Complement(g: GateWay): (r: GateWay)
    ensures WellFormed(r)
    ensures Has(r, HORI) <==> !Has(g, HORI)
    ensures Has(r, VERT) <==> !Has(g, VERT)
  {
    GateWay(!g.bits & ALL)
  }

  /** Complementing a well-formed set twice gives it back. */
  lemma ComplementInvolution(g: GateWay)
    requires WellFormed(g)
    ensures Complement(Complement(g)) == g
  {
  }

  /** Every gate of `s` complemented, in place. */
  function Toggled(s: seq<GateWay>): (r: seq<GateWay>)
    ensures |r| == |s|
  {
    seq(|s|, i requires 0 <= i < |s| => Complement(s[i]))
  }

  predicate AllWellFormed(s: seq<GateWay>) {
    forall i :: 0 <= i < |s| ==> WellFormed(s[i])
  }

  /** Toggling keeps the gates well formed and, on well-formed gates, twice is the identity. */
  lemma ToggleTwice(s: seq<GateWay>)
    ensures AllWellFormed(Toggled(s))
    ensures AllWellFormed(s) ==> Toggled(Toggled(s)) == s
  {
    if AllWellFormed(s) {
      forall i | 0 <= i < |s| ensures Toggled(Toggled(s))[i] == s[i] {
        ComplementInvolution(s[i]);
      }
    }
  }

  /** Toggling empty gates sets both flags on every gate. */
  lemma ToggleEmpty(s: seq<GateWay>)
    requires forall i :: 0 <= i < |s| ==> s[i] == EMPTY
    ensures forall i :: 0 <= i < |s| ==> Has(Toggled(s)[i], HORI) && Has(Toggled(s)[i], VERT)
    ensures forall i :: 0 <= i < |s| ==> Toggled(s)[i] == GateWay(HORI | VERT)
  {
  }

  class Maze {
    const width: nat
    const height: nat
    const gates: array<GateWay>

    ghost predicate Valid()
      reads this, gates
    {
      gates.Length == width * height && AllWellFormed(gates[..])
    }

    /**
     * `Maze::new`: `width * height` empty gates. The product is a `u32`,
     * which must not overflow.
     */
    constructor (width: nat, height: nat)
      requires width * height < 0x1_0000_0000
      ensures Valid() && fresh(gates)
      ensures this.width == width && this.height == height
      ensures forall i :: 0 <= i < gates.Length ==> gates[i] == EMPTY
    {
      var count := width * height;
      var v := new GateWay[count];
      for i := 0 to count
        invariant forall j :: 0 <= j < i ==> v[j] == EMPTY
      {
        v[i] := EMPTY;
      }
      this.width := width;
      this.height := height;
      gates := v;
    }

    /** `toggle`: every gate complemented within HORI | VERT; the sizes stay as they were. */
    method Toggle()
      requires Valid()
      modifies gates
      ensures Valid()
      ensures gates[..] == Toggled(old(gates[..]))
    {
      for i := 0 to gates.Length
        invariant gates[..i] == Toggled(old(gates[..]))[..i]
        invariant gates[i..] == old(gates[..])[i..]
      {
        gates[i] := Complement(gates[i]);
      }
      ToggleTwice(old(gates[..]));
    }
  }
}

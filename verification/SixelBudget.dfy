/** Work units that decode calls are charged, about one for each pixel they touch
    (include/vnm_terminal/internal/sixel_decoder.h). */
module SixelBudget {
  import opened SixelLanguage

  /** A number of units, and a ledger of what was charged and what went past them. */
  class WorkBudget {
    const units: nat
    var remaining: nat
    var charged: bool
    var refused: bool
    var overrun: nat
    var rasterAllocations: nat
    ghost var total: nat

    /** Every unit charged was either taken from the budget or overran it. */
    ghost predicate Valid()
      reads this
    {
      && remaining <= units
      && total == units - remaining + overrun
      && (overrun > 0 ==> remaining == 0)
      && (!charged ==> total == 0)
    }

    constructor (units: nat)
      ensures Valid() && total == 0 && !charged && !refused && this.units == units
    {
      this.units := units;
      remaining, charged, refused, overrun, rasterAllocations, total := units, false, false, 0, 0, 0;
    }

    /** The budget is spent by what was charged, once something was. */
    predicate Exhausted(): (r: bool)
      reads this
      ensures Valid() ==> (r <==> refused || (charged && units <= total))
    {
      refused || (charged && remaining == 0)
    }

    /** Everything charged so far. */
    function Charged(): (r: int)
      reads this
      ensures Valid() ==> r == total
    {
      units - remaining + overrun
    }

    method ChargeAfter(charge: nat)
      requires Valid()
      modifies this
      ensures Valid() && charged && total == old(total) + charge
      ensures refused == old(refused) && rasterAllocations == old(rasterAllocations)
    {
      charged := true;
      var covered := Min(charge, remaining);
      overrun := overrun + (charge - covered);
      remaining := remaining - covered;
      total := total + charge;
    }

    method CountRasterAllocations(rasters: nat)
      requires Valid()
      modifies this`rasterAllocations
      ensures rasterAllocations == old(rasterAllocations) + rasters
    {
      rasterAllocations := rasterAllocations + rasters;
    }
  }
}

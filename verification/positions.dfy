/** The position record the bots keep: `get_position` of the shared utility
    module, with the margin the clients attach to it afterwards. */
module PositionRecords {
  import opened Wrappers

  /** Size in contracts (signed: positive is long), entry and liquidation
      prices when known, and the margin posted. */
  datatype PositionRecord = PositionRecord(size: int, entryPrice: Option<real>, liquidationPrice: Option<real>, margin: real)

  /** `get_position(size=0, entry_price=None, liquidation_price=None)`: an
      argument left out is `None` here. The margin starts at 0. */
  function GetPosition(size: Option<int>, entryPrice: Option<real>, liquidationPrice: Option<real>): PositionRecord
  {
    PositionRecord(size.GetOr(0), entryPrice, liquidationPrice, 0.0)
  }

  /** With no arguments the record is flat with no prices; any argument given
      is echoed. */
  lemma GetPositionMeaning(size: Option<int>, entryPrice: Option<real>, liquidationPrice: Option<real>)
    ensures GetPosition(None, None, None) == PositionRecord(0, None, None, 0.0)
    ensures size.Some? ==> GetPosition(size, entryPrice, liquidationPrice).size == size.value
    ensures GetPosition(size, entryPrice, liquidationPrice).entryPrice == entryPrice
    ensures GetPosition(size, entryPrice, liquidationPrice).liquidationPrice == liquidationPrice
  {
  }
}

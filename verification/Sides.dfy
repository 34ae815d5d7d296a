/** Which amount of a swap is fixed: the one sold or the one bought. */
module Sides {

  datatype SwapSide = SELL | BUY
}

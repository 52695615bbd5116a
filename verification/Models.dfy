/** The entities the components share: addresses, exchanges, hops, lenders. */
module Models {
  import opened Bytes
  import opened Word256

  type Address = x: int | 0 <= x < TWO_160

  datatype DexName =
    | UniswapV2 | UniswapV3 | SushiSwap | Aerodrome | BaseSwap | PancakeSwap | Maverick | Permit2 | CowSwap | UniswapX

  /** How a pool is priced and called. */
  datatype DexType = UniswapV2 | UniswapV3 | MaverickV2 | Aerodrome {
    function Discriminant(): byte {
      match this
      case UniswapV2 => 0
      case UniswapV3 => 1
      case MaverickV2 => 2
      case Aerodrome => 3
    }
  }

  datatype Lender = Balancer | AaveV3 | UniswapV2 | UniswapV3 | Aerodrome | MakerDAO | MorphoBlue | Curve {
    function Id(): byte {
      match this
      case Balancer => 0
      case AaveV3 => 1
      case _ => 2
    }
  }

  /** One trade of a path. */
  datatype Hop = Hop(
    pool: Address, tokenIn: Address, tokenOut: Address,
    dexType: DexType, dexName: DexName, zeroForOne: bool, isStable: bool)
}

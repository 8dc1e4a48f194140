/** The one arithmetic of money in the repository: price times quantity. */
module Amounts {

  function Cost(price: real, quantity: int): real {
    price * (quantity as real)
  }
}

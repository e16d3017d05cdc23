/** Where a node is, as the pointers of the program say it; 0 is the null pointer. */
module Addresses {
  type Addr = nat
}

/**
 * `TMyContainer`: a container template whose `DefaultSlack` parameter must be at
 * least 8. The source enforces this with a `static_assert`, so an instantiation
 * with less slack does not compile; here that is a precondition.
 */
module Templates {
  import opened Awesomeness

  /** Smallest default slack the template accepts. */
  const MinDefaultSlack: Int32 := 8

  /** An instantiation of the template, seen through its one constrained parameter. */
  datatype MyContainer = MyContainer(defaultSlack: Int32)

  /** Instantiating the template: allowed only with enough slack, which every instance then carries. */
  function Instantiate(defaultSlack: Int32): (container: MyContainer)
    requires defaultSlack >= MinDefaultSlack
    ensures container.defaultSlack == defaultSlack
    ensures container.defaultSlack >= 8
  {
    MyContainer(defaultSlack)
  }
}

/** The CPU-bound endpoint with the bound the service fixes. */
module CpuEndpoint {
  import opened CpuIntensive

  /** The iteration bound the service uses: `range(10**6)`. */
  const ServiceBound: nat := 1000000

  /** The endpoint itself: the accumulator pass with the service's bound of one million. */
  method CpuIntensiveEndpoint() returns (result: nat)
    ensures result == Accumulated(ServiceBound)
  {
    result := CpuIntensiveTask(ServiceBound);
  }
}

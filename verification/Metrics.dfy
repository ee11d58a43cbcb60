/** The sampled values every component shares. Byte counts are `u64` in the
    source and naturals here; CPU and temperature readings are reals. */
module Metrics {
  import opened Common

  const U32_MAX: nat := 0xFFFF_FFFF
  type U32 = n: nat | n <= U32_MAX
  const I64_MAX: int := 0x7FFF_FFFF_FFFF_FFFF
  const I64_MIN: int := -0x8000_0000_0000_0000

  datatype NodeState = Healthy | Warning | Critical | Stale | Offline | AuthError | Incompatible | Degraded

  datatype Disk = Disk(mount: string, totalBytes: nat, usedBytes: nat)

  datatype Temperature = Temperature(sensor: string, celsius: real, criticalCelsius: Option<real>, sensorCount: nat)

  datatype Network = Network(receivedBytesPerSecond: nat, sentBytesPerSecond: nat)

  datatype MetricSample = MetricSample(
    timestampMs: int,
    sequence: nat,
    cpuPercent: Option<real>,
    memoryUsedBytes: Option<nat>,
    memoryTotalBytes: Option<nat>,
    swapUsedBytes: Option<nat>,
    swapTotalBytes: Option<nat>,
    disks: seq<Disk>,
    network: Option<Network>,
    temperature: Option<Temperature>,
    uptimeSeconds: nat,
    errors: seq<string>)
}

/**
 * Construction of `SvcBusService`, the reader whose operations are modelled
 * in QueueDiscovery, PeekPaging and FieldExtraction: the settings value and
 * the logger are checked, the Service Bus client is taken as given.
 */
module SvcBusService {
  import opened Wrappers
  import opened Configuration

  /** A constructed reader over a client and a logger of any kind. */
  datatype Service<C, L> = Service(client: C, config: ServiceBusRepoSettings, logger: L)

  /** The constructor: the settings value is checked before the logger; the client is never checked. */
  function Create<C, L>(client: C, config: Option<ServiceBusRepoSettings>, logger: Option<L>)
    : (r: Result<Service<C, L>, string>)
    ensures r.Success? <==> config.Some? && logger.Some?
    ensures config.None? ==> r == Failure(ConfigIsNull)
    ensures config.Some? && logger.None? ==> r == Failure(LoggerIsNull)
    ensures r.Success? ==> r.value == Service(client, config.value, logger.value)
  {
    if config.None? then Failure(ConfigIsNull)
    else if logger.None? then Failure(LoggerIsNull)
    else Success(Service(client, config.value, logger.value))
  }
}

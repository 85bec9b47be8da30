/** The settings records the pipeline is constructed with (ApplicationConfiguration.cs). */
module Configuration {

  /**
   * Messages of the exceptions the constructors throw. A settings argument
   * is modelled as `Option`, `None` standing for a null `IOptions<T>.Value`;
   * a null `IOptions<T>` itself throws `NullReferenceException`, which is
   * not modelled.
   */
  const ConfigIsNull := "config is null"
  const LoggerIsNull := "logger is null"

  /** Connection and paging settings of the Service Bus reader. */
  datatype ServiceBusRepoSettings = ServiceBusRepoSettings(
    serviceBusConnectionString: string,
    queueSelectionRegex: string,
    envName: string,
    peekMessageBatchSize: int,
    notifyUIBatchSize: int)

  /** Shared-key credentials and batching of the Log Analytics sink. */
  datatype LADataSinkSettings = LADataSinkSettings(
    workspaceId: string,
    sharedKey: string,
    logName: string,
    timeStampField: string,
    chunkSize: int)

  /** Storage account and container of the blob sink. */
  datatype BlobDataSinkSettings = BlobDataSinkSettings(
    storageConnectionString: string,
    storageContainerName: string)

  datatype ApplicationConfiguration = ApplicationConfiguration(
    laDataSinkSettings: LADataSinkSettings,
    serviceBusRepoSettings: ServiceBusRepoSettings,
    blobDataSinkSettings: BlobDataSinkSettings)
}

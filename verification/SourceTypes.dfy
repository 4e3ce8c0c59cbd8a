/** The records of the data source catalog, without their creation and update timestamps. */
module SourceTypes {
  import opened Common

  datatype SourceKind =
    | PostgreSQL | MySQL | Oracle | DB2 | SAPHANA | Snowflake | Databricks | S3Parquet | CsvFile | RDFNTriples

  datatype SourceConfig = SourceConfig(kind: SourceKind, settings: map<string, string>)

  datatype Connection = Connection(
    secretRef: string,
    config: SourceConfig,
    encryptionEnabled: bool,
    credentials: map<string, string>)

  datatype DataSource = DataSource(
    id: string,
    title: string,
    description: Option<string>,
    sourceType: SourceKind,
    connection: Connection,
    schemaRef: Option<string>,
    tags: seq<string>,
    metadata: map<string, string>,
    lastSyncedAt: Option<int>)
}

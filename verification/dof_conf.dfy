/**
  The CSV settings the initial data migration stores in `dof_conf`, and
  what the CSV loader makes of them.
 */
module DofConf {
  import opened Values
  import opened Errors
  import opened LoadDof

  /** The `csv_table_map` entries of the initial settings: CSV header to
      table column. */
  const TableEntries: seq<(string, string)> :=
    [ ("VERIFIED STATUS", "verif_status_code"), ("CITY", "city"), ("QUANTITY", "quantity"),
      ("AGL", "agl"), ("AMSL", "amsl"), ("LIGHTING", "lighting_code"), ("MARKING", "marking_code"),
      ("FAA STUDY", "faa_study_number"), ("ACTION", "action"), ("JDATE", "julian_date") ]

  /** The first two letters of each header. They serve only the proof below:
      two headers whose first letters differ are different, which spares the
      verifier comparing whole header strings. */
  const TableTags: seq<(char, char)> :=
    [ ('V', 'E'), ('C', 'I'), ('Q', 'U'), ('A', 'G'), ('A', 'M'),
      ('L', 'I'), ('M', 'A'), ('F', 'A'), ('A', 'C'), ('J', 'D') ]

  /** No header is mapped twice: their first two letters already differ. */
  lemma TableEntriesDistinct()
    ensures DistinctKeys(TableEntries)
  {
    assert forall i :: 0 <= i < |TableEntries| ==>
             |TableEntries[i].0| >= 2 && (TableEntries[i].0[0], TableEntries[i].0[1]) == TableTags[i];
    assert forall i, j :: 0 <= i < j < |TableTags| ==> TableTags[i] != TableTags[j];
  }

  /** The CSV settings row of the initial data. */
  function InitialCsvConfig(): CsvConfig {
    TableEntriesDistinct();
    CsvConfig(TableEntries, [("LATDEC", "lat"), ("LONDEC", "lon")],
              [("oas_ident", "OAS"), ("accuracy", "ACCURACY"), ("obstacle_type", "TYPE")])
  }

  /** The loader reads fifteen columns from a CSV file under the initial
      settings: ten table columns, two coordinates and three parsed ones. */
  lemma InitialCsvColumns()
    ensures GetCsvColumns(InitialCsvConfig()) ==
              [ "VERIFIED STATUS", "CITY", "QUANTITY", "AGL", "AMSL", "LIGHTING", "MARKING",
                "FAA STUDY", "ACTION", "JDATE", "LATDEC", "LONDEC", "OAS", "ACCURACY", "TYPE" ]
  {
  }

  /** Under the initial settings the three parsed columns are OAS, ACCURACY
      and TYPE, which differ from each other and from every column the
      loader derives, so `LoadCsv` promises the derived columns for it. */
  lemma InitialParsedColumns()
    ensures ParsedColumn(InitialCsvConfig(), OasIdentRole) == Ok("OAS")
    ensures ParsedColumn(InitialCsvConfig(), AccuracyRole) == Ok("ACCURACY")
    ensures ParsedColumn(InitialCsvConfig(), ObstacleTypeRole) == Ok("TYPE")
    ensures ParsedColumnsFresh("OAS", "ACCURACY", "TYPE")
  {
  }
}

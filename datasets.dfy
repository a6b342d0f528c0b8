/** The IMDb datasets and the names derived from each: the compressed file
    name, the SQL table name and the download URL. */
module Datasets {
  import opened Strings

  /** The six datasets IMDb publishes. */
  datatype ImdbDataset =
    | NameBasics
    | TitleAkas
    | TitleBasics
    | TitleCrew
    | TitlePrincipals
    | TitleRatings

  /** The dataset's value, as IMDb names it. */
  function Value(d: ImdbDataset): string {
    match d
    case NameBasics => "name.basics"
    case TitleAkas => "title.akas"
    case TitleBasics => "title.basics"
    case TitleCrew => "title.crew"
    case TitlePrincipals => "title.principals"
    case TitleRatings => "title.ratings"
  }

  const CompressedSuffix := ".tsv.gz"
  const DatasetHost := "https://datasets.imdbws.com/"

  /** The compressed file name: removing the suffix `.tsv.gz` gives the
      dataset's value back. */
  function Filename(d: ImdbDataset): (r: string)
    ensures |r| == |Value(d)| + |CompressedSuffix|
    ensures r[..|Value(d)|] == Value(d) && r[|Value(d)|..] == CompressedSuffix
  {
    Value(d) + CompressedSuffix
  }

  /** The SQL table name: the value with every `.` turned into `_`, so that it
      holds no `.` at all. */
  function TableName(d: ImdbDataset): (r: string)
    ensures |r| == |Value(d)| && '.' !in r
    ensures forall i :: 0 <= i < |r| ==> r[i] == if Value(d)[i] == '.' then '_' else Value(d)[i]
  {
    ReplaceChar(Value(d), '.', '_')
  }

  /** The URL the dataset is downloaded from: the host followed by the file name. */
  function SourceUrl(d: ImdbDataset): (r: string)
    ensures |r| == |DatasetHost| + |Filename(d)|
    ensures r[..|DatasetHost|] == DatasetHost && r[|DatasetHost|..] == Filename(d)
  {
    DatasetHost + Filename(d)
  }

  lemma FilenameExample()
    ensures Filename(NameBasics) == "name.basics.tsv.gz"
  {
  }

  lemma TableNameExample()
    ensures TableName(NameBasics) == "name_basics"
  {
    var r := TableName(NameBasics);
    assert r[4] == '_';
  }

  /** Different datasets never share a file name, a table name or a URL. */
  lemma NamesDistinct(d: ImdbDataset, e: ImdbDataset)
    requires d != e
    ensures Filename(d) != Filename(e)
    ensures TableName(d) != TableName(e)
    ensures SourceUrl(d) != SourceUrl(e)
  {
    ValuesDistinct(d, e);
    assert Filename(d)[..|Value(d)|] == Value(d);
    assert Filename(e)[..|Value(e)|] == Value(e);
    assert SourceUrl(d)[|DatasetHost|..] == Filename(d);
    assert SourceUrl(e)[|DatasetHost|..] == Filename(e);
    if TableName(d) == TableName(e) {
      ReplaceCharInjective(Value(d), Value(e), '.', '_');
    }
  }

  lemma ValuesDistinct(d: ImdbDataset, e: ImdbDataset)
    requires d != e
    ensures Value(d) != Value(e)
    ensures '_' !in Value(d) && '_' !in Value(e)
  {
  }
}

/** The record normalisers: `MyBot.__extract_data_from_tiles` and
    `MyBot.__extract_data_from_table`. Page elements are given; only their
    visible text (and, for links, their target) is modelled. */
module Normalize {
  import opened Wrappers

  /** A located page element: its `.text` and its `href` attribute. */
  datatype WebElement = WebElement(text: string, href: string)

  /** The IndexError raised by `amounts[i]` when there are fewer amounts
      than agency names. */
  datatype ShapeError = IndexOutOfRange(index: nat)

  /** One `[name, amount]` row per agency name, indexed by the agency list;
      surplus amounts are ignored and a missing one raises. */
  method ExtractDataFromTiles(agencies: seq<WebElement>, amounts: seq<WebElement>)
    returns (r: Result<seq<seq<string>>, ShapeError>)
    ensures r.Success? <==> |agencies| <= |amounts|
    ensures r.Failure? ==> r.error == IndexOutOfRange(|amounts|)
    ensures r.Success? ==>
      |r.value| == |agencies|
      && forall i :: 0 <= i < |agencies| ==> r.value[i] == [agencies[i].text, amounts[i].text]
  {
    var data: seq<seq<string>> := [];
    for i := 0 to |agencies|
      invariant i <= |amounts|
      invariant |data| == i
      invariant forall k :: 0 <= k < i ==> data[k] == [agencies[k].text, amounts[k].text]
    {
      if i >= |amounts| {
        return Failure(IndexOutOfRange(i));
      }
      data := data + [[agencies[i].text, amounts[i].text]];
    }
    r := Success(data);
  }

  /** One list of cell texts per table row, rows and cells in page order. */
  method ExtractDataFromTable(rows: seq<seq<WebElement>>) returns (data: seq<seq<string>>)
    ensures |data| == |rows|
    ensures forall i :: 0 <= i < |rows| ==>
      |data[i]| == |rows[i]| && forall j :: 0 <= j < |rows[i]| ==> data[i][j] == rows[i][j].text
  {
    data := [];
    for i := 0 to |rows|
      invariant |data| == i
      invariant forall k :: 0 <= k < i ==>
        |data[k]| == |rows[k]| && forall j :: 0 <= j < |rows[k]| ==> data[k][j] == rows[k][j].text
    {
      var cols := rows[i];
      var datum := seq(|cols|, j requires 0 <= j < |cols| => cols[j].text);
      data := data + [datum];
    }
  }
}

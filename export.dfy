/** `export_scan`: download one scan of a host in one of its raw formats.
    The scan record is the map of fields the index returned for the scan id
    (only the string-valued fields matter here), with the hit count. */
module Export {

  /** The extensions the route serves. */
  const Extensions: seq<string> := ["xml", "nmap", "gnmap", "json"]

  datatype Response =
    | NotFound
      /** The whole record, serialised as JSON. */
    | Whole(record: map<string, string>, mime: string)
      /** One stored field of the record, sent as is. */
    | Field(body: string, mime: string)

  /** The record field holding the raw output for an extension. */
  function FieldName(ext: string): (f: string)
    ensures |f| == |ext| + 5 && f[..|ext|] == ext && f[|ext|..] == "_data"
  {
    ext + "_data"
  }

  function Mime(ext: string): (m: string)
    ensures m == "application/json" <==> ext == "json"
    ensures m == "text/plain" <==> ext != "json"
  {
    if ext == "json" then "application/json" else "text/plain"
  }

  function ExportScan(ext: string, count: int, record: map<string, string>): (r: Response)
    ensures r != NotFound ==> ext in Extensions && count > 0 && r.mime == Mime(ext)
    ensures r.Whole? ==> ext == "json" && r.record == record
    ensures r.Field? ==> FieldName(ext) in record && r.body == record[FieldName(ext)]
  {
    if ext !in Extensions then NotFound
    else
      var field := FieldName(ext);
      var mime := Mime(ext);
      if ext == "json" && count > 0 then Whole(record, mime)
      else if count > 0 && field in record then Field(record[field], mime)
      else NotFound
  }

  /** What is served, case by case: nothing for an unknown extension or an
      empty hit; the whole record for `json`; otherwise the `<ext>_data`
      field when the record has it, and nothing when it does not. */
  lemma ExportCases(ext: string, count: int, record: map<string, string>)
    ensures var r := ExportScan(ext, count, record);
      && (ext !in Extensions || count <= 0 ==> r == NotFound)
      && (ext == "json" && count > 0 ==> r == Whole(record, "application/json"))
      && (ext in Extensions && ext != "json" && count > 0 ==>
            r == if FieldName(ext) in record then Field(record[FieldName(ext)], "text/plain") else NotFound)
  {
  }

  /** Something is served exactly when the extension is allowed, the scan was
      found, and it is `json` or the record holds the field; the MIME type is
      JSON exactly for `json`. */
  lemma ServedIff(ext: string, count: int, record: map<string, string>)
    ensures var r := ExportScan(ext, count, record);
      && (r != NotFound <==> ext in Extensions && count > 0 && (ext == "json" || FieldName(ext) in record))
      && (r != NotFound ==> (r.mime == "application/json" <==> ext == "json"))
  {
  }

  /** The four extensions read four different fields, so no format is
      served from another format's field. */
  lemma FieldNamesDistinct(a: string, b: string)
    requires a != b
    ensures FieldName(a) != FieldName(b)
  {
    if |a| == |b| {
      assert FieldName(a)[..|a|] == a;
    } else {
      assert |FieldName(a)| != |FieldName(b)|;
    }
  }
}

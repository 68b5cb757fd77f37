/**
 * A parsed JSON document (the nlohmann::json value the readers and
 * exporters handle), and the two kinds of file an export produces.
 * Numbers are the integers the model writes and reads; reading text into
 * this value and `dump(4)` are not part of this model.
 */
module Json {

  datatype Json =
    | JNull
    | JBool(b: bool)
    | JNumber(n: int)
    | JString(s: string)
    | JArray(items: seq<Json>)
    | JObject(members: map<string, Json>)

  /** What an `exportData` call writes: the CSV text (BOM included) or the JSON document. */
  datatype Exported = CsvFile(text: string) | JsonFile(doc: Json)
}

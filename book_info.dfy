/** A book of the canon as the frozen record `BibleBookInfo` (its id and English name).
    The `BibleBook` enumeration, whose members have these records as values, is identified
    with its values: two books are the same book exactly when their records are equal. */
module BookInfo {
  import opened Wrappers

  /** Immutable, and compared field by field, like the frozen dataclass. */
  datatype BibleBookInfo = BibleBookInfo(id: string, englishName: string)

  /** The dataclass constructor followed by its `__post_init__` check. */
  function NewBibleBookInfo(id: string, englishName: string): (r: Result<BibleBookInfo>)
    ensures r.Ok? <==> id != "" && englishName != ""
    ensures r.Ok? ==> r.value.id == id && r.value.englishName == englishName
    ensures id == "" ==> r == Err(ValueError("The 'id' field cannot be empty"))
    ensures id != "" && englishName == "" ==> r == Err(ValueError("The 'english_name' field cannot be empty"))
  {
    if id == "" then Err(ValueError("The 'id' field cannot be empty"))
    else if englishName == "" then Err(ValueError("The 'english_name' field cannot be empty"))
    else Ok(BibleBookInfo(id, englishName))
  }
}

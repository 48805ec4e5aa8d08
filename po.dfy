/**
 * A PO-catalog entry as the PO-file library hands it over: only the fields
 * the conversion and the validation read.
 */
module Po {

  datatype PoEntry = PoEntry(
    msgid: string,
    msgstr: string,
    /** `msgstr[n]` of a plural entry, by plural index; empty for a plain entry. */
    msgstrPlural: map<int, string>,
    /** The `#,` flags, such as "fuzzy". */
    flags: seq<string>,
    /** A `#~` entry kept from an earlier catalog. */
    obsolete: bool)
}

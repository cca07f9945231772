/** The WITSML API functions a request may invoke (src/Witsml/Functions.cs). */
module WitsmlApi {

  /** The SOAP store functions followed by the ETP object functions. */
  datatype Functions =
    | GetBaseMsg
    | GetCap
    | GetVersion
    | GetFromStore
    | AddToStore
    | UpdateInStore
    | DeleteFromStore
    | GetObject
    | PutObject
    | DeleteObject
}

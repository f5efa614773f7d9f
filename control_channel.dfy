/** The JSON documents carried in announcement (EA) and manipulation-table (SMT)
    payloads, as the records the producers write and the render parser reads.
    Serialisation and parsing are left to the JSON library; here a document is
    the decoded value. */
module ControlChannel {
  import opened Bytes

  // The "action" strings of a manipulation table.
  const ActionAddImage: string := "add_image"
  const ActionRemoveImage: string := "remove_image"

  // The "type" strings of announced streams the receiver reacts to.
  const MediaVideo: string := "video"
  const MediaAudio: string := "audio"

  /** One entry of the announcement's "streams" array. */
  datatype StreamDesc = StreamDesc(index: int, mediaType: string, codec: string)

  /** The announcement document: "program_index" and "streams". */
  datatype Announcement = Announcement(programIndex: int, streams: seq<StreamDesc>)

  /** One entry of a manipulation table's "actions" array. "data_type" and "data"
      are written only for add_image; a remove_image carries them as "". */
  datatype Action = Action(action: string, id: uint64, dataType: string, data: string)

  /** The manipulation table document: its "actions" array. */
  datatype ManipulationTable = ManipulationTable(actions: seq<Action>)
}

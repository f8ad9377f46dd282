/** Outcomes shared by the header parser, the local reader and the remote fetcher. */
module XarResults {

  datatype Option<+T> = None | Some(value: T)

  /** The ways a read of an archive can fail; each constructor stands for one raise site. */
  datatype Error =
    | HeaderTooShort                    // ValueError: fewer than 64 header bytes
    | IncorrectMagic(magic: seq<bv8>)   // ValueError: the first four bytes are not "xar!"
    | UnknownVersion(version: nat)      // raised while formatting the message: int has no decode()
    | UnknownHeaderSize(size: nat)      // likewise
    | CorruptToc                        // the decompressor rejected the table of contents
    | MalformedManifest                 // the table of contents is not a readable manifest
    | FileNotFound(reported: string)    // no entry carries the requested name

  datatype Result<+T> = Ok(value: T) | Err(error: Error)
}

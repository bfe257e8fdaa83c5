/**
 * The values PatchUtils reads from the platform and from PatchParameters.
 * Neither Path nor PatchParameters is part of this model, so their values are
 * parameters: every operation that depends on one of them takes a Settings.
 */
module Platform {

  datatype Settings = Settings(
    /** Path.DirectorySeparatorChar, the separator every stored path is rewritten to. */
    directorySeparator: char,
    /** Path.AltDirectorySeparatorChar; on some platforms it equals directorySeparator. */
    altDirectorySeparator: char,
    /** PatchParameters.FileHashCheckSizeLimit: above this size only lengths are compared. */
    fileHashCheckSizeLimit: int,
    /** PatchParameters.VERSION_HOLDER_FILENAME_POSTFIX, the suffix of version-marker files. */
    versionHolderPostfix: string)
}

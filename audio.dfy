/**
 * The loudness boost applied to the narration: an external encoder writes a
 * louder copy to a fresh temporary file, which replaces the narration only
 * when it is plausibly a real recording (more than 10000 bytes); otherwise
 * the copy is deleted and the narration is left as it was.
 */
module Audio {
  import opened Files

  /** Smallest size, in bytes, that a boosted recording must exceed to be used. */
  const MinBoostedSize: nat := 10000

  /**
   * `encoded` is what the encoder process left behind at the output path:
   * nothing, or a file of the given size. Errors from the `os` calls are
   * swallowed, as `boost_audio_volume`'s bare `except` does.
   */
  method BoostAudioVolume(fs: FileSystem, input: Path, encoded: Option<nat>)
    requires fs.Valid()
    requires input.Temp? ==> input.id < fs.nextTemp  // the narration's name was handed out earlier
    modifies fs
    ensures fs.Valid() && fs.nextTemp == old(fs.nextTemp) + 1
    // the replacement happens exactly when the copy is large enough and nothing is locked
    ensures var boosted := Temp(old(fs.nextTemp), ".mp3");
            encoded.Some? && encoded.value > MinBoostedSize && boosted !in fs.locked && input !in fs.locked
            ==> fs.files == old(fs.files)[input := encoded.value]
    // a missing copy, or a too small one that can be removed, leaves the disk as it was
    ensures var boosted := Temp(old(fs.nextTemp), ".mp3");
            encoded.None? || (encoded.value <= MinBoostedSize && boosted !in fs.locked)
            ==> fs.files == old(fs.files)
    // a too small copy that is locked cannot be removed and stays on disk
    ensures var boosted := Temp(old(fs.nextTemp), ".mp3");
            encoded.Some? && encoded.value <= MinBoostedSize && boosted in fs.locked
            ==> fs.files == old(fs.files)[boosted := encoded.value]
    // a large enough copy that cannot replace a locked file stays on disk beside the narration
    ensures var boosted := Temp(old(fs.nextTemp), ".mp3");
            encoded.Some? && encoded.value > MinBoostedSize && (boosted in fs.locked || input in fs.locked)
            ==> fs.files == old(fs.files)[boosted := encoded.value]
    // the narration changes only through a large enough copy
    ensures input in fs.files <==> input in old(fs.files) || (encoded.Some? && encoded.value > MinBoostedSize && input !in fs.locked && Temp(old(fs.nextTemp), ".mp3") !in fs.locked)
    ensures input in fs.files && input in old(fs.files) && fs.files[input] != old(fs.files)[input]
            ==> encoded.Some? && encoded.value > MinBoostedSize && fs.files[input] == encoded.value
    // no other file is touched
    ensures forall p | p != input && p != Temp(old(fs.nextTemp), ".mp3") ::
              (p in fs.files <==> p in old(fs.files)) && (p in fs.files ==> fs.files[p] == old(fs.files)[p])
  {
    var boosted := fs.MakeTemp(".mp3");
    if encoded.Some? {
      fs.Write(boosted, encoded.value);
    }
    if fs.Exists(boosted) && fs.files[boosted] > MinBoostedSize {
      var _ := fs.Replace(boosted, input);
    } else if fs.Exists(boosted) {
      var _ := fs.Remove(boosted);
    }
  }
}

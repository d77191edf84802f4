/** How the RFI clipper reads its configuration: whether it is active, the
    band-pass model file, the rejection factor, the history length and the
    frequency band. Reading the file itself and converting option text to
    numbers happen outside this model; their outcomes are inputs. */
module ClipConfig {
  import opened Basics

  datatype Result<T, E> = Success(value: T) | Failure(error: E)

  /** What the band-pass description holds: its level, its spread and the
      frequency range it covers. */
  datatype Band = Band(median: real, rms: real, startFrequency: real, endFrequency: real)

  /** The configuration as the clipper sees it. A frequency option that is
      missing or empty is `None`; otherwise it carries the number the text
      converts to. */
  datatype Options = Options(
    activeAttribute: Option<string>,   // the `active` attribute, if present
    bandPassFile: string,              // <BandPassData file=...>, "" when absent
    fileExists: bool,                  // whether that file exists
    fileOpens: bool,                   // whether it opens for reading
    fileBand: Band,                    // what the file describes
    defaultBand: Band,                 // a band pass that was never loaded
    rejectionFactor: Option<real>,     // the `rejectionFactor` attribute
    historyMaximum: Option<int>,       // <History maximum=...>
    bandMatching: string,              // <Band matching=...>
    startFrequency: Option<real>,      // <Band startFrequency=...>
    endFrequency: Option<real>)        // <Band endFrequency=...>

  /** The reasons construction fails, in the order they are checked. */
  datatype ConfigError =
    | FileMissing(file: string)
    | FileUnreadable(file: string)
    | BandPassFileUndefined
    | StartFrequencyUndefined
    | EndFrequencyUndefined

  /** A successfully configured clipper. A frequency the configuration
      never sets is `None`. */
  datatype Settings = Settings(
    active: bool,
    band: Band,
    rFactor: real,
    maxHistory: int,
    startFrequency: Option<real>,
    endFrequency: Option<real>)

  const DefaultRejectionFactor: real := 3.0
  const DefaultHistoryMaximum: int := 10

  /** ASCII lower case of one character: an upper-case letter becomes the
      lower-case letter at the same place in the alphabet, anything else
      is left alone; no upper-case letter remains. */
  function LowerChar(c: char): (l: char)
    ensures !('A' <= l <= 'Z')
    ensures 'a' <= l <= 'z' <==> 'a' <= c <= 'z' || 'A' <= c <= 'Z'
    ensures 'A' <= c <= 'Z' ==> l as int - 'a' as int == c as int - 'A' as int
    ensures !('A' <= c <= 'Z') ==> l == c
  {
    if 'A' <= c <= 'Z' then (c as int + 32) as char else c
  }

  /** ASCII lower case. */
  function Lower(s: string): (r: string)
    ensures |r| == |s|
  {
    if |s| == 0 then [] else [LowerChar(s[0])] + Lower(s[1..])
  }

  lemma {:induction false} LowerAt(s: string, i: nat)
    requires i < |s|
    ensures Lower(s)[i] == LowerChar(s[i])
    decreases i
  {
    if i > 0 {
      LowerAt(s[1..], i - 1);
    }
  }

  /** Lowering is idempotent: a lowered string has nothing left to lower. */
  lemma LowerIdempotent(s: string)
    ensures Lower(Lower(s)) == Lower(s)
  {
    forall i | 0 <= i < |s|
      ensures Lower(Lower(s))[i] == Lower(s)[i]
    {
      LowerAt(s, i);
      LowerAt(Lower(s), i);
    }
  }

  /** The clipper is active unless the `active` attribute reads "false"
      in any letter case. */
  predicate Active(o: Options)
  {
    !(o.activeAttribute.Some? && Lower(o.activeAttribute.value) == "false")
  }

  /** Builds the clipper's settings, failing with the first error the
      constructor meets. */
  function Configure(o: Options): Result<Settings, ConfigError>
  {
    var active := Active(o);
    if o.bandPassFile != "" && active && !o.fileExists then Failure(FileMissing(o.bandPassFile))
    else if o.bandPassFile != "" && active && !o.fileOpens then Failure(FileUnreadable(o.bandPassFile))
    else if !(o.bandPassFile != "" && active) && active then Failure(BandPassFileUndefined)
    else
      var band := if o.bandPassFile != "" && active then o.fileBand else o.defaultBand;
      var rFactor := if o.rejectionFactor.Some? then o.rejectionFactor.value else DefaultRejectionFactor;
      var maxHistory := if o.historyMaximum.Some? then o.historyMaximum.value else DefaultHistoryMaximum;
      if o.bandMatching == "true" then
        Success(Settings(active, band, rFactor, maxHistory, Some(band.startFrequency), Some(band.endFrequency)))
      else if !active then
        Success(Settings(active, band, rFactor, maxHistory, None, None))
      else if o.startFrequency.None? then Failure(StartFrequencyUndefined)
      else if o.endFrequency.None? then Failure(EndFrequencyUndefined)
      else Success(Settings(active, band, rFactor, maxHistory, o.startFrequency, o.endFrequency))
  }

  // ---------------------------------------------------------------------
  // Properties

  /** The `active` attribute switches the clipper off exactly when it reads
      "false", whatever the letter case. */
  lemma ActiveAttributeExamples()
    ensures Lower("False") == "false" && Lower("FALSE") == "false"
    ensures forall o: Options :: o.activeAttribute == Some("False") ==> !Active(o)
    ensures forall o: Options :: o.activeAttribute == Some("no") ==> Active(o)
    ensures forall o: Options :: o.activeAttribute.None? ==> Active(o)
  {
    LowerFalse("False");
    LowerFalse("FALSE");
    LowerAt("no", 0);
  }

  /** Any spelling of "false" whose letters differ only in case lowers to
      "false". */
  lemma LowerFalse(s: string)
    requires |s| == 5
    requires s[0] in "fF" && s[1] in "aA" && s[2] in "lL" && s[3] in "sS" && s[4] in "eE"
    ensures Lower(s) == "false"
  {
    LowerAt(s, 0);
    LowerAt(s, 1);
    LowerAt(s, 2);
    LowerAt(s, 3);
    LowerAt(s, 4);
  }

  /** Construction succeeds exactly when the clipper is inactive, or it
      names a band-pass file that exists and opens and either matches the
      band to that file or gives both frequencies. */
  lemma ConfigureSucceedsIff(o: Options)
    ensures Configure(o).Success? <==>
              !Active(o)
              || (&& o.bandPassFile != "" && o.fileExists && o.fileOpens
                  && (o.bandMatching == "true" || (o.startFrequency.Some? && o.endFrequency.Some?)))
  {
  }

  /** An inactive clipper never fails to build, whatever else is given. */
  lemma InactiveNeverFails(o: Options)
    requires !Active(o)
    ensures Configure(o).Success? && !Configure(o).value.active
  {
  }

  /** Which error an active clipper reports: file problems come first, then
      a missing file option, then the start frequency, then the end
      frequency. */
  lemma ConfigureErrors(o: Options)
    requires Active(o)
    ensures o.bandPassFile == "" ==> Configure(o) == Failure(BandPassFileUndefined)
    ensures o.bandPassFile != "" && !o.fileExists ==> Configure(o) == Failure(FileMissing(o.bandPassFile))
    ensures o.bandPassFile != "" && o.fileExists && !o.fileOpens ==>
              Configure(o) == Failure(FileUnreadable(o.bandPassFile))
    ensures o.bandPassFile != "" && o.fileExists && o.fileOpens && o.bandMatching != "true" ==>
              && (o.startFrequency.None? ==> Configure(o) == Failure(StartFrequencyUndefined))
              && (o.startFrequency.Some? && o.endFrequency.None? ==> Configure(o) == Failure(EndFrequencyUndefined))
  {
  }

  /** What a successful configuration holds: the factor and history length
      default to 3 and 10, an active clipper uses the file's band pass, and
      band matching takes the frequencies from that band pass. */
  lemma ConfiguredSettings(o: Options)
    requires Configure(o).Success?
    ensures Configure(o).value.active == Active(o)
    ensures Configure(o).value.rFactor == if o.rejectionFactor.Some? then o.rejectionFactor.value else 3.0
    ensures Configure(o).value.maxHistory == if o.historyMaximum.Some? then o.historyMaximum.value else 10
    ensures Active(o) ==> Configure(o).value.band == o.fileBand
    ensures o.bandMatching == "true" ==>
              && Configure(o).value.startFrequency == Some(Configure(o).value.band.startFrequency)
              && Configure(o).value.endFrequency == Some(Configure(o).value.band.endFrequency)
    ensures o.bandMatching != "true" && Active(o) ==>
              Configure(o).value.startFrequency == o.startFrequency
              && Configure(o).value.endFrequency == o.endFrequency
  {
  }
}

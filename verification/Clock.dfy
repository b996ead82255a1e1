/** The provider's clock. A file may move it forward and can never move it back. */
module Clock {
  import opened Options
  import opened Order
  import opened Instants

  datatype Source = System | Fixed(instant: string) | File

  /** A file's contents when they are exactly one instant; `None` is a file not read. */
  function ReadInstant(contents: Option<string>): Option<string> {
    if contents.Some? && IsInstant(contents.value) then contents else None
  }

  /** The instant kept after one look at the file. */
  function Kept(last: string, contents: Option<string>): string {
    var read := ReadInstant(contents);
    if read.Some? && Precedes(last, read.value) then read.value else last
  }

  class Clock {
    const source: Source
    var last: Option<string>

    constructor (source: Source, last: Option<string>)
      ensures this.source == source && this.last == last
    {
      this.source := source;
      this.last := last;
    }

    ghost predicate Valid()
      reads this
    {
      source.File? ==> last.Some? && IsInstant(last.value)
    }

    /** A file clock starts from a good instant or not at all. */
    static method Open(source: Source, contents: Option<string>) returns (clock: Option<Clock>)
      ensures clock.None? <==> source.File? && ReadInstant(contents).None?
      ensures clock.Some? ==> fresh(clock.value) && clock.value.Valid() && clock.value.source == source
      ensures clock.Some? && source.File? ==> clock.value.last == contents
    {
      var first := ReadInstant(contents);
      if source.File? && first.None? {
        return None;
      }
      var started := new Clock(source, if source.File? then first else None);
      clock := Some(started);
    }

    /** The instant now: `contents` is what the file holds, `wall` the system's seconds. */
    method Now(contents: Option<string>, wall: nat) returns (instant: string)
      requires Valid()
      modifies this
      ensures Valid()
      ensures source.System? ==> instant == FormatUnix(wall) && last == old(last)
      ensures source.Fixed? ==> instant == source.instant && last == old(last)
      ensures source.File? ==> last == Some(instant) && instant == Kept(old(last).value, contents)
      ensures source.File? ==> !Precedes(instant, old(last).value)
    {
      match source
      case System =>
        instant := FormatUnix(wall);
      case Fixed(fixed) =>
        instant := fixed;
      case File =>
        var read := ReadInstant(contents);
        PrecedesIsStrict(last.value, last.value);
        if read.Some? && Precedes(last.value, read.value) {
          PrecedesIsStrict(last.value, read.value);
          last := read;
        }
        instant := last.value;
    }
  }

  // ---- whole runs ------------------------------------------------------------------------------

  /** The reading after looking at a file that held each of `files` in turn. */
  function Reading(first: string, files: seq<Option<string>>): string {
    if files == [] then first else Kept(Reading(first, files[..|files| - 1]), files[|files| - 1])
  }

  /** No reading comes before an earlier one. */
  lemma {:induction false} ClockNeverRunsBack(first: string, files: seq<Option<string>>, sooner: nat)
    requires sooner <= |files|
    ensures !Precedes(Reading(first, files), Reading(first, files[..sooner]))
    decreases |files|
  {
    var before := files[..|files| - (if files == [] then 0 else 1)];
    var earlier := Reading(first, files[..sooner]);
    PrecedesIsStrict(earlier, earlier);
    if sooner == |files| {
      assert files[..sooner] == files;
    } else {
      ClockNeverRunsBack(first, before, sooner);
      assert before[..sooner] == files[..sooner];
      NotBefore(earlier, Reading(first, before), Reading(first, files));
    }
  }

  lemma NotBefore(a: string, b: string, c: string)
    requires !Precedes(b, a) && (b == c || Precedes(b, c))
    ensures !Precedes(c, a)
  {
    if Precedes(c, a) && b != c {
      PrecedesIsTransitive(b, c, a);
    }
  }

  /** The reading is the latest of the first instant and of the good ones since: a file
      that is torn, garbage or set back changes nothing. */
  lemma {:induction false} ReadingIsTheLatest(first: string, files: seq<Option<string>>)
    ensures var reading := Reading(first, files);
            && (reading == first || (Some(reading) in files && IsInstant(reading)))
            && !Precedes(reading, first)
            && forall file :: file in files && file.Some? && IsInstant(file.value) ==> !Precedes(reading, file.value)
    decreases |files|
  {
    PrecedesIsStrict(first, first);
    if files != [] {
      var before, last := files[..|files| - 1], files[|files| - 1];
      ReadingIsTheLatest(first, before);
      assert files == before + [last];
      var sooner, reading := Reading(first, before), Reading(first, files);
      NotBefore(first, sooner, reading);
      forall file | file in files && file.Some? && IsInstant(file.value)
        ensures !Precedes(reading, file.value)
      {
        if file in before {
          NotBefore(file.value, sooner, reading);
        } else {
          PrecedesIsStrict(file.value, file.value);
        }
      }
    }
  }
}

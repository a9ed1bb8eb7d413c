/**
 * The floating music player: a play/pause button and a title that can expand into a lyrics
 * card. The hidden `<audio>` element is a foreign object; the calls made to it are recorded
 * as a log of commands, and whether it is mounted is a parameter of each click.
 */
module MusicPlayer {
  /** A call on the audio element. */
  datatype AudioCommand = Play | Pause

  class Player {
    var isPlaying: bool
    var isExpanded: bool
    /** Every `play()` and `pause()` sent to the audio element, oldest first. */
    var audioCommands: seq<AudioCommand>

    /** The flag tracks the commands: they alternate play, pause, play, ..., and the player
     *  is playing exactly when the last one was a play. */
    ghost predicate Valid()
      reads this
    {
      && (forall i :: 0 <= i < |audioCommands| ==> audioCommands[i] == (if i % 2 == 0 then Play else Pause))
      && (isPlaying <==> |audioCommands| % 2 == 1)
    }

    /** The player mounts paused and collapsed, and nothing has been sent to the audio. */
    constructor ()
      ensures Valid()
      ensures !isPlaying && !isExpanded && audioCommands == []
    {
      isPlaying := false;
      isExpanded := false;
      audioCommands := [];
    }

    /** The play/pause button. With no audio element mounted nothing happens; otherwise a
     *  playing track is paused, a paused one is started and the lyrics card opened. */
    method TogglePlay(audioMounted: bool)
      requires Valid()
      modifies this
      ensures Valid()
      ensures !audioMounted ==>
        isPlaying == old(isPlaying) && isExpanded == old(isExpanded) && audioCommands == old(audioCommands)
      ensures audioMounted && old(isPlaying) ==>
        !isPlaying && isExpanded == old(isExpanded) && audioCommands == old(audioCommands) + [Pause]
      ensures audioMounted && !old(isPlaying) ==>
        isPlaying && isExpanded && audioCommands == old(audioCommands) + [Play]
    {
      if audioMounted {
        if isPlaying {
          audioCommands := audioCommands + [Pause];
        } else {
          audioCommands := audioCommands + [Play];
          isExpanded := true;
        }
        isPlaying := !isPlaying;
      }
    }

    /** Clicking the title opens or closes the lyrics card without touching playback. */
    method ClickTitle()
      requires Valid()
      modifies this
      ensures Valid()
      ensures isExpanded == !old(isExpanded)
      ensures isPlaying == old(isPlaying) && audioCommands == old(audioCommands)
    {
      isExpanded := !isExpanded;
    }

    /** The card's close button collapses it; the music keeps playing. */
    method Close()
      requires Valid()
      modifies this
      ensures Valid()
      ensures !isExpanded
      ensures isPlaying == old(isPlaying) && audioCommands == old(audioCommands)
    {
      isExpanded := false;
    }
  }
}

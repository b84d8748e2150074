/** The link service of internal/core/services/link_service.go, over the in-memory
    repository. The random identifier and the clock reading at creation are
    parameters, so that the model is deterministic. */
module Service {
  import opened Wrappers
  import opened Domain
  import Base62
  import opened Repository

  class LinkService {
    const repo: MemoryRepository

    /** `NewLinkService`. */
    constructor (repo: MemoryRepository)
      ensures this.repo == repo
    {
      this.repo := repo;
    }

    /** `CreateShortLink`: rejects an empty URL; otherwise encodes `id`, builds the link
        and saves it, passing on the repository's error when the code is taken. */
    method CreateShortLink(originalURL: string, id: Base62.uint64, now: Timestamp) returns (r: Result<Link>)
      requires repo.Valid()
      modifies repo`links, repo`baseline
      ensures repo.Valid()
      ensures originalURL == [] ==> r == Err(EmptyURL) && repo.links == old(repo.links)
      ensures originalURL != [] && Base62.Numeral(id) in old(repo.links) ==>
        r == Err(DuplicateKey) && repo.links == old(repo.links)
      ensures originalURL != [] && Base62.Numeral(id) !in old(repo.links) ==>
        r == Ok(NewLink(originalURL, Base62.Numeral(id), now)) &&
        repo.links == old(repo.links)[Base62.Numeral(id) := r.value]
      ensures r.Ok? ==>
        r.value.id == r.value.shortened == Base62.Numeral(id) &&
        r.value.original == originalURL && r.value.visits == 0
      ensures Grows(old(repo.links), repo.links)
    {
      if originalURL == [] {
        GrowsReflexive(repo.links);
        return Err(EmptyURL);
      }
      var shortCode := Base62.Encode(id);
      var link := NewLink(originalURL, shortCode, now);
      var saved := repo.Save(link);
      if saved.Fail? {
        return Err(saved.error);
      }
      r := Ok(link);
    }

    /** `GetOriginalURL`: looks the code up; when it is stored, asks for a visit increment,
        ignores whether the queue accepted it, and returns the original URL. */
    method GetOriginalURL(shortCode: string) returns (r: Result<string>)
      requires repo.Valid()
      modifies repo`visitQueue, repo`accepted
      ensures repo.Valid()
      ensures r == if shortCode in repo.links then Ok(repo.links[shortCode].original) else Err(NotFound)
      ensures shortCode !in repo.links ==> repo.visitQueue == old(repo.visitQueue)
      ensures shortCode in repo.links && |old(repo.visitQueue)| < QueueCapacity ==>
        repo.visitQueue == old(repo.visitQueue) + [shortCode]
      ensures shortCode in repo.links && |old(repo.visitQueue)| >= QueueCapacity ==>
        repo.visitQueue == old(repo.visitQueue)
    {
      var found := repo.GetByShortCode(shortCode);
      if found.Err? {
        return Err(found.error);
      }
      var _ := repo.IncrementVisits(shortCode);
      r := Ok(found.value.original);
    }

    /** Shortening a URL and then resolving the code it was given yields that URL. */
    method ShortenThenResolve(originalURL: string, id: Base62.uint64, now: Timestamp)
      returns (created: Result<Link>, resolved: Result<string>)
      requires repo.Valid()
      modifies repo`links, repo`baseline, repo`visitQueue, repo`accepted
      ensures repo.Valid()
      ensures created.Ok? ==> resolved == Ok(originalURL)
      ensures originalURL != [] && Base62.Numeral(id) !in old(repo.links) ==> created.Ok?
    {
      created := CreateShortLink(originalURL, id, now);
      if created.Err? {
        resolved := Err(created.error);
        return;
      }
      resolved := GetOriginalURL(created.value.shortened);
    }
  }
}
